/**
 * The files the core reads and writes: key files as their lines, documents
 * as the two things the core uses of a PDF (its extracted text and its
 * custom metadata strings).
 */
module Storage {

  /** A loaded PDF: `PDFTextStripper.getText` and the document information's custom metadata. */
  datatype Document = Document(text: string, metadata: map<string, string>)

  datatype Content = TextFile(lines: seq<string>) | PdfFile(document: Document)

  /** The file system: what each path holds, and the paths that cannot be opened for writing. */
  class FileSystem {
    var files: map<string, Content>
    const unwritable: set<string>

    constructor (files: map<string, Content>, unwritable: set<string>)
      ensures this.files == files && this.unwritable == unwritable
    {
      this.files := files;
      this.unwritable := unwritable;
    }

  }
}
