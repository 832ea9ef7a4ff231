/** The whitespace split of operations/simfile.py under Python 2: the
    split() of a byte string breaks only on the six characters of
    Simfile.IsSpace, so other control characters stay inside a token. */
module SimfileControl {
  import opened Simfile

  /** The file separator, code 0x1C: a control character that Python 2's
      split() does not break on. */
  const FS: char := '\U{1C}'

  /** A control character outside those six stays inside its token: the
      line "> key a<FS>b" keeps the value "a<FS>b". */
  lemma ControlCharInValue()
    ensures ParseLine("> key a" + [FS] + "b\n") == [("key", "a" + [FS] + "b")]
  {
    var e := ("key", "a" + [FS] + "b");
    ControlCharLine();
    ControlCharWord();
    ParseLineOfLine(e);
  }

  lemma ControlCharLine()
    ensures Line(("key", "a" + [FS] + "b")) == "> key a" + [FS] + "b\n"
  {
  }

  lemma ControlCharWord()
    ensures NoSpace("a" + [FS] + "b") && forall j :: 0 <= j < 3 ==> !MarkAt("a" + [FS] + "b", j)
  {
    assert ("a" + [FS] + "b")[0] != CR_MARK[0];
  }
}
