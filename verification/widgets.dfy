/** The one JavaFX widget state the verifier itself changes: a text's visibility. */
module Widgets {

  class Text {
    var visible: bool

    constructor (visible: bool)
      ensures this.visible == visible
    {
      this.visible := visible;
    }
  }
}
