/**
 What is typed, as raw bytes, against the lines submitted: CR has been turned
 into a newline on the way.
 */
module TypedLines {
  import opened Types
  import opened LineEditor
  import RetargetIo

  /** A text of bytes 0x20 to 0x7E that fits into a line. */
  ghost predicate Typed(text: seq<byte>) {
    |text| <= 255 && forall i :: 0 <= i < |text| ==> 0x20 <= text[i] <= 0x7E
  }

  lemma CookedText(text: seq<byte>, enter: byte)
    requires Typed(text) && (enter == 0x0D || enter == 0x0A)
    ensures RetargetIo.Cooked(text + [enter]) == text + [0x0A]
    ensures IsText(text)
  {
    forall c | c in text
      ensures Printable(c)
    {
      var i :| 0 <= i < |text| && text[i] == c;
    }
  }

  /** The editor is at an empty prompt after the given bytes. */
  ghost predicate AtPrompt(s: seq<byte>) {
    Fold(RetargetIo.Cooked(s)).escape == Plain && Fold(RetargetIo.Cooked(s)).line == []
  }

  /** Typing a text at an empty prompt and pressing enter, which sends CR, adds
      exactly that text to the lines, and leaves an empty prompt. */
  lemma EnterSubmits(s: seq<byte>, text: seq<byte>, enter: byte)
    requires AtPrompt(s) && Typed(text) && (enter == 0x0D || enter == 0x0A)
    ensures Fold(RetargetIo.Cooked(s + text + [enter])).lines == Fold(RetargetIo.Cooked(s)).lines + [text]
    ensures AtPrompt(s + text + [enter])
  {
    CookedText(text, enter);
    assert s + text + [enter] == s + (text + [enter]);
    RetargetIo.CookedConcat(s, text + [enter]);
    FeedAllConcat(FRESH, RetargetIo.Cooked(s), text + [0x0A]);
    TypedLineIsSubmitted(Fold(RetargetIo.Cooked(s)), text, 0x0A);
  }
}
