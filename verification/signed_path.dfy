/**
 * Where `Sign.init` saves the signed copy: the document's file name with
 * every `.pdf` removed (`String.replace(".pdf", "")`) plus `_signed.pdf`,
 * resolved as a sibling of the document.
 *
 * A path is its text; a separator is `\` or `/`, and the file name is what
 * follows the last separator.
 */
module SignedName {
  import opened Strings
  import opened Wrappers

  const PdfExtension: string := ".pdf"
  const SignedSuffix: string := "_signed.pdf"

  predicate IsSeparator(c: char)
  {
    c == '\\' || c == '/'
  }

  /** Where the file name starts: just past the last separator, or 0 when there is none. */
  function NameStart(p: string): (k: nat)
    ensures k <= |p|
    ensures forall i :: k <= i < |p| ==> !IsSeparator(p[i])
    ensures k > 0 ==> IsSeparator(p[k - 1])
  {
    if p == "" then 0
    else if IsSeparator(p[|p| - 1]) then |p|
    else NameStart(p[..|p| - 1])
  }

  /** `getFileName()`. */
  function FileName(p: string): (name: string)
    ensures |name| <= |p| && p[|p| - |name|..] == name
    ensures forall i :: 0 <= i < |name| ==> !IsSeparator(name[i])
    ensures |name| < |p| ==> IsSeparator(p[|p| - |name| - 1])
  {
    p[NameStart(p)..]
  }

  /** The directory part, with its trailing separator; `resolveSibling` appends to it. */
  function Directory(p: string): (dir: string)
    ensures dir + FileName(p) == p
    ensures dir == "" || IsSeparator(dir[|dir| - 1])
  {
    p[..NameStart(p)]
  }

  /** `s.replace(t, "")`: every occurrence of `t`, scanning left to right, is removed. */
  function RemoveAll(s: string, t: string): (r: string)
    requires t != ""
    ensures |r| <= |s|
    ensures r == s <==> RemovedCount(s, t) == 0
    decreases |s|
  {
    if |s| < |t| then s
    else if s[..|t|] == t then RemoveAll(s[|t|..], t)
    else [s[0]] + RemoveAll(s[1..], t)
  }

  /** How many occurrences `RemoveAll` removes. */
  function RemovedCount(s: string, t: string): nat
    requires t != ""
    decreases |s|
  {
    if |s| < |t| then 0
    else if s[..|t|] == t then 1 + RemovedCount(s[|t|..], t)
    else RemovedCount(s[1..], t)
  }

  /** Removing k occurrences shortens the text by k times the target's length and keeps only its characters. */
  lemma RemoveAllShortens(s: string, t: string)
    requires t != ""
    ensures |RemoveAll(s, t)| + |t| * RemovedCount(s, t) == |s|
    ensures forall c :: c in RemoveAll(s, t) ==> c in s
  {
    RemovedLength(s, t);
    RemovedChars(s, t);
  }

  lemma {:induction false} RemovedLength(s: string, t: string)
    requires t != ""
    ensures |RemoveAll(s, t)| + |t| * RemovedCount(s, t) == |s|
    decreases |s|
  {
    if |s| >= |t| {
      if s[..|t|] == t {
        var rest := s[|t|..];
        RemovedLength(rest, t);
        var k := RemovedCount(rest, t);
        assert RemoveAll(s, t) == RemoveAll(rest, t);
        assert RemovedCount(s, t) == 1 + k;
        MulStep(|t|, k);
      } else {
        var rest := s[1..];
        RemovedLength(rest, t);
        assert |RemoveAll(s, t)| == 1 + |RemoveAll(rest, t)|;
        assert RemovedCount(s, t) == RemovedCount(rest, t);
      }
    }
  }

  lemma MulStep(a: int, k: int)
    ensures a * (1 + k) == a + a * k
  {
  }

  lemma {:induction false} RemovedChars(s: string, t: string)
    requires t != ""
    ensures forall c :: c in RemoveAll(s, t) ==> c in s
    decreases |s|
  {
    if |s| >= |t| {
      var n := if s[..|t|] == t then |t| else 1;
      var rest := s[n..];
      RemovedChars(rest, t);
      assert forall c :: c in rest ==> c in s by {
        forall c | c in rest ensures c in s {
          var i :| 0 <= i < |rest| && rest[i] == c;
          assert s[n + i] == c;
        }
      }
    }
  }

  /** The name the signed copy gets. */
  function SignedFileName(name: string): string
  {
    RemoveAll(name, PdfExtension) + SignedSuffix
  }

  /**
   * `originalPath.resolveSibling(fileName + "_signed.pdf")`; `None` when the
   * path text ends in a separator, which the model takes for a root, where
   * `getFileName()` gives null and `toString()` throws.
   */
  function SignedPath(documentPath: string): (r: Option<string>)
    ensures r.None? <==> documentPath != "" && IsSeparator(documentPath[|documentPath| - 1])
    ensures r.Some? ==> EndsWith(r.value, SignedSuffix)
  {
    if documentPath != "" && NameStart(documentPath) == |documentPath| then None
    else Some(Directory(documentPath) + SignedFileName(FileName(documentPath)))
  }

  /**
   * The signed copy sits in the document's directory, under the document's
   * name with every `.pdf` removed plus `_signed.pdf`, and it is never the
   * document itself: removing k copies of `.pdf` takes 4k characters away,
   * and 4k is never the 11 that `_signed.pdf` adds.
   */
  lemma SignedPathIsSibling(documentPath: string)
    requires SignedPath(documentPath).Some?
    ensures var out := SignedPath(documentPath).value;
      && Directory(out) == Directory(documentPath)
      && FileName(out) == RemoveAll(FileName(documentPath), PdfExtension) + SignedSuffix
      && EndsWith(out, SignedSuffix)
      && out != documentPath
  {
    var dir, name := Directory(documentPath), FileName(documentPath);
    var newName := SignedFileName(name);
    SignedNameShape(name);
    NameStartOfAppend(dir, newName);
    assert documentPath == dir + name;
  }

  /** The new name has no separator, and its length differs from the old name's. */
  lemma SignedNameShape(name: string)
    requires forall c :: c in name ==> !IsSeparator(c)
    ensures forall c :: c in SignedFileName(name) ==> !IsSeparator(c)
    ensures |SignedFileName(name)| != |name|
  {
    RemoveAllShortens(name, PdfExtension);
    assert |SignedFileName(name)| == |name| - 4 * RemovedCount(name, PdfExtension) + 11;
  }

  /** Appending a separator-free name to a directory text makes that name the file name. */
  lemma {:induction false} NameStartOfAppend(dir: string, name: string)
    requires dir == "" || IsSeparator(dir[|dir| - 1])
    requires forall c :: c in name ==> !IsSeparator(c)
    ensures NameStart(dir + name) == |dir|
    decreases |name|
  {
    if name == "" {
      assert dir + name == dir;
    } else {
      assert (dir + name)[..|dir + name| - 1] == dir + name[..|name| - 1];
      assert forall c :: c in name[..|name| - 1] ==> c in name;
      NameStartOfAppend(dir, name[..|name| - 1]);
    }
  }

  /** Characters that cannot start the target are kept as they are. */
  lemma {:induction false} PrefixKept(a: string, b: string, t: string)
    requires t != ""
    requires forall i :: 0 <= i < |a| ==> a[i] != t[0]
    ensures RemoveAll(a + b, t) == a + RemoveAll(b, t)
    decreases |a|
  {
    if a != [] {
      var ab := a + b;
      assert ab[0] == a[0];
      assert ab[1..] == a[1..] + b;
      PrefixKept(a[1..], b, t);
      if |ab| >= |t| {
        assert ab[..|t|][0] != t[0];
        calc {
          RemoveAll(ab, t);
          [a[0]] + RemoveAll(a[1..] + b, t);
          [a[0]] + (a[1..] + RemoveAll(b, t));
          { assert a == [a[0]] + a[1..]; }
          a + RemoveAll(b, t);
        }
      } else {
        assert RemoveAll(b, t) == b;
      }
    } else {
      assert a + b == b;
    }
  }

  /** An occurrence at the front is removed. */
  lemma MatchDropped(t: string, b: string)
    requires t != ""
    ensures RemoveAll(t + b, t) == RemoveAll(b, t)
  {
    assert (t + b)[..|t|] == t;
    assert (t + b)[|t|..] == b;
  }

  /** The common case: a name `<stem>.pdf` whose stem has no dot is signed into `<stem>_signed.pdf`. */
  lemma ReportExample(stem: string)
    requires forall i :: 0 <= i < |stem| ==> stem[i] != '.'
    ensures RemoveAll(stem + PdfExtension, PdfExtension) == stem
    ensures SignedFileName(stem + PdfExtension) == stem + SignedSuffix
  {
    PrefixKept(stem, PdfExtension, PdfExtension);
    assert PdfExtension == PdfExtension + "";
    MatchDropped(PdfExtension, "");
  }

  /** Every occurrence goes, not only an extension at the end: `<stem>.pdf.pdf` becomes `<stem>_signed.pdf`. */
  lemma EveryOccurrenceRemoved(stem: string)
    requires forall i :: 0 <= i < |stem| ==> stem[i] != '.'
    ensures SignedFileName(stem + PdfExtension + PdfExtension) == stem + SignedSuffix
  {
    assert stem + PdfExtension + PdfExtension == stem + (PdfExtension + PdfExtension);
    PrefixKept(stem, PdfExtension + PdfExtension, PdfExtension);
    MatchDropped(PdfExtension, PdfExtension);
    ReportExample("");
    assert "" + PdfExtension == PdfExtension;
  }

  /**
   * A single left-to-right pass: in `<stem>..pdfpdf` the `.pdf` in the middle
   * goes, and the `.pdf` that its removal brings together stays.
   */
  lemma OnePassOnly(stem: string)
    requires forall i :: 0 <= i < |stem| ==> stem[i] != '.'
    ensures SignedFileName(stem + "." + PdfExtension + "pdf") == stem + PdfExtension + SignedSuffix
  {
    var rest := "." + (PdfExtension + "pdf");
    assert stem + "." + PdfExtension + "pdf" == stem + rest;
    PrefixKept(stem, rest, PdfExtension);
    assert rest[..|PdfExtension|] != PdfExtension by {
      assert rest[1] == '.' && PdfExtension[1] == 'p';
    }
    assert rest[1..] == PdfExtension + "pdf";
    assert RemoveAll(rest, PdfExtension) == ['.'] + RemoveAll(PdfExtension + "pdf", PdfExtension);
    MatchDropped(PdfExtension, "pdf");
    assert RemoveAll("pdf", PdfExtension) == "pdf";
    assert ['.'] + "pdf" == PdfExtension;
  }
}
