/** The simfile helper of the STAB operations scripts (operations/simfile.py):
    an ordered list of (element, value) pairs read from the `> element value`
    lines of a reference simfile, updated and looked up by element name, and
    written back one line per pair. The file is given as the lines readline
    returns, in order; the empty string is readline's end of file. */
module Simfile {

  type Entry = (string, string)

  // ---------------------------------------------------------------------------
  // Python's whitespace split.
  // ---------------------------------------------------------------------------

  /** The characters the split() of a Python 2 byte string treats as
      whitespace (the scripts run under Python 2). */
  predicate IsSpace(c: char)
  {
    c == ' ' || c == '\t' || c == '\n' || c == '\r' || c == '\U{0B}' || c == '\U{0C}'
  }

  predicate NoSpace(s: string)
  {
    forall i :: 0 <= i < |s| ==> !IsSpace(s[i])
  }

  /** The length of the run of non-whitespace characters s starts with. */
  function WordLen(s: string): (n: nat)
    ensures n <= |s|
    ensures NoSpace(s[..n])
    ensures n < |s| ==> IsSpace(s[n])
  {
    if |s| == 0 || IsSpace(s[0]) then 0
    else
      var n := 1 + WordLen(s[1..]);
      assert s[..n] == [s[0]] + s[1..][..n - 1];
      n
  }

  /** str.split(): the maximal runs of non-whitespace characters, in order. */
  function Split(s: string): (ws: seq<string>)
    ensures forall i :: 0 <= i < |ws| ==> ws[i] != [] && NoSpace(ws[i])
    decreases |s|
  {
    if |s| == 0 then []
    else if IsSpace(s[0]) then Split(s[1..])
    else
      var n := WordLen(s);
      [s[..n]] + Split(s[n..])
  }

  /** A non-empty word followed by a whitespace character splits off as the
      first token. */
  lemma SplitWord(w: string, c: char, rest: string)
    requires w != [] && NoSpace(w) && IsSpace(c)
    ensures Split(w + [c] + rest) == [w] + Split(rest)
  {
    var s := w + [c] + rest;
    var t := [c] + rest;
    assert s == w + t;
    WordLenOf(w, t);
    assert s[0] == w[0] && !IsSpace(s[0]);
    assert s[..|w|] == w;
    assert s[|w|..] == t;
    assert Split(s) == [w] + Split(t);
    assert t[1..] == rest;
    assert Split(t) == Split(rest);
  }

  lemma {:induction false} WordLenOf(w: string, t: string)
    requires NoSpace(w) && t != [] && IsSpace(t[0])
    ensures WordLen(w + t) == |w|
    decreases |w|
  {
    if |w| > 0 {
      assert (w + t)[1..] == w[1..] + t;
      WordLenOf(w[1..], t);
    } else {
      assert w + t == t;
    }
  }

  // ---------------------------------------------------------------------------
  // The two replacements on the value.
  // ---------------------------------------------------------------------------

  /** str.replace('\n', ''). */
  function DropNewlines(s: string): (r: string)
    ensures forall i :: 0 <= i < |r| ==> r[i] != '\n'
    ensures (forall i :: 0 <= i < |s| ==> s[i] != '\n') ==> r == s
  {
    if |s| == 0 then []
    else if s[0] == '\n' then DropNewlines(s[1..])
    else [s[0]] + DropNewlines(s[1..])
  }

  /** The three characters the source's literal '\cr' stands for. */
  const CR_MARK: string := "\\cr"

  /** Whether the marker occurs in s starting at index i. */
  predicate MarkAt(s: string, i: nat)
  {
    i + 3 <= |s| && s[i..i + 3] == CR_MARK
  }

  /** str.replace('\cr', ''): occurrences are removed left to right, each
      search resuming after the last one removed. */
  function DropCr(s: string): (r: string)
    ensures (forall i :: 0 <= i < |s| ==> !MarkAt(s, i)) ==> r == s
    decreases |s|
  {
    if |s| < 3 then s
    else if s[..3] == CR_MARK then
      assert MarkAt(s, 0);
      DropCr(s[3..])
    else
      assert forall i :: 0 <= i < |s| - 1 ==> (MarkAt(s[1..], i) <==> MarkAt(s, i + 1)) by {
        forall i | 0 <= i < |s| - 1 ensures MarkAt(s[1..], i) <==> MarkAt(s, i + 1) {
          if i + 3 <= |s| - 1 {
            assert s[1..][i..i + 3] == s[i + 1..i + 4];
          }
        }
      }
      [s[0]] + DropCr(s[1..])
  }

  /** The removal is a single pass, as str.replace is: a marker that only
      appears once another is removed survives. */
  lemma DropCrSinglePass()
    ensures DropCr("\\c\\crr") == CR_MARK
  {
    var s := "\\c\\crr";
    assert s[..3] != CR_MARK by { assert s[2] == '\\'; }
    assert s[1..][..3] != CR_MARK by { assert s[1..][1] == '\\'; }
    assert s[1..][1..] == "\\crr";
    assert s[2..][..3] == CR_MARK;
    assert s[2..][3..] == "r";
  }

  // ---------------------------------------------------------------------------
  // The line parser.
  // ---------------------------------------------------------------------------

  /** One line of the reference simfile: kept when its split has more than
      two tokens and the first is '>'; the pair is the second token and the
      third with its newlines and markers removed; further tokens are
      dropped. */
  function ParseLine(line: string): (r: seq<Entry>)
    ensures |r| <= 1
    ensures |r| == 1 <==> |Split(line)| > 2 && Split(line)[0] == ">"
    ensures |r| == 1 ==> r[0].0 == Split(line)[1] && r[0].1 == DropCr(DropNewlines(Split(line)[2]))
  {
    var ws := Split(line);
    if |ws| > 2 && ws[0] == ">" then [(ws[1], DropCr(DropNewlines(ws[2])))] else []
  }

  /** What the parser keeps of the lines readline returns: every line up to
      the first empty one (the end of file) contributes its pair, in file
      order. */
  function Parse(lines: seq<string>): (r: seq<Entry>)
    ensures |r| <= |lines|
  {
    if |lines| == 0 || lines[0] == "" then [] else ParseLine(lines[0]) + Parse(lines[1..])
  }

  lemma {:induction false} ParseAppend(lines: seq<string>, line: string)
    requires forall i :: 0 <= i < |lines| ==> lines[i] != ""
    ensures Parse(lines + [line]) == Parse(lines) + (if line == "" then [] else ParseLine(line))
    decreases |lines|
  {
    if |lines| == 0 {
      assert lines + [line] == [line];
      assert [line][1..] == [];
    } else {
      assert (lines + [line])[1..] == lines[1..] + [line];
      ParseAppend(lines[1..], line);
    }
  }

  /** Values the writer emits and the parser reads back unchanged: non-empty,
      without whitespace and without the marker. Keys need only the first two. */
  predicate Writable(s: seq<Entry>)
  {
    forall i :: 0 <= i < |s| ==>
      s[i].0 != [] && NoSpace(s[i].0) && s[i].1 != [] && NoSpace(s[i].1)
      && forall j :: 0 <= j < |s[i].1| ==> !MarkAt(s[i].1, j)
  }

  /** write_simfile's line for one pair. */
  function Line(e: Entry): string
  {
    "> " + e.0 + " " + e.1 + "\n"
  }

  /** write_simfile's lines, in list order. */
  function Lines(s: seq<Entry>): (r: seq<string>)
    ensures |r| == |s|
    ensures forall i :: 0 <= i < |s| ==> r[i] == Line(s[i])
  {
    if |s| == 0 then [] else [Line(s[0])] + Lines(s[1..])
  }

  /** A written line splits into '>', the key and the value. */
  lemma SplitLine(e: Entry)
    requires e.0 != [] && NoSpace(e.0) && e.1 != [] && NoSpace(e.1)
    ensures Split(Line(e)) == [">", e.0, e.1]
  {
    var k, v := e.0, e.1;
    assert Line(e) == ">" + [' '] + (k + [' '] + (v + ['\n'] + ""));
    SplitWord(">", ' ', k + [' '] + (v + ['\n'] + ""));
    SplitWord(k, ' ', v + ['\n'] + "");
    SplitWord(v, '\n', "");
  }

  /** Every written line is parsed back into its own pair. */
  lemma ParseLineOfLine(e: Entry)
    requires e.0 != [] && NoSpace(e.0) && e.1 != [] && NoSpace(e.1)
    requires forall j :: 0 <= j < |e.1| ==> !MarkAt(e.1, j)
    ensures ParseLine(Line(e)) == [e]
  {
    SplitLine(e);
  }

  /** Round trip: parsing what write_simfile writes gives back the list. */
  lemma {:induction false} ParseLines(s: seq<Entry>)
    requires Writable(s)
    ensures Parse(Lines(s)) == s
    decreases |s|
  {
    if |s| > 0 {
      ParseLineOfLine(s[0]);
      assert Lines(s)[1..] == Lines(s[1..]);
      assert Writable(s[1..]) by {
        forall i | 0 <= i < |s| - 1 ensures s[1..][i] == s[i + 1] { }
      }
      ParseLines(s[1..]);
      assert s == [s[0]] + s[1..];
    }
  }

  // ---------------------------------------------------------------------------
  // Updates and lookups.
  // ---------------------------------------------------------------------------

  /** Whether some entry has the given element name. */
  predicate HasKey(s: seq<Entry>, key: string)
  {
    exists i :: 0 <= i < |s| && s[i].0 == key
  }

  /** assign_element on a list: every entry named key gets the value. */
  function Assign(s: seq<Entry>, key: string, value: string): (r: seq<Entry>)
    ensures |r| == |s|
    ensures forall i :: 0 <= i < |s| ==> r[i].0 == s[i].0
    ensures forall i :: 0 <= i < |s| && s[i].0 == key ==> r[i].1 == value
    ensures forall i :: 0 <= i < |s| && s[i].0 != key ==> r[i] == s[i]
    ensures !HasKey(s, key) ==> r == s
  {
    seq(|s|, i requires 0 <= i < |s| => if s[i].0 == key then (key, value) else s[i])
  }

  /** get_element's answer: a value, or the exit of a failed lookup. */
  datatype Lookup = Found(value: string) | Exit

  /** The value of the last entry named key, or "" when there is none. */
  function LastValue(s: seq<Entry>, key: string): string
  {
    if |s| == 0 then ""
    else if s[|s| - 1].0 == key then s[|s| - 1].1
    else LastValue(s[..|s| - 1], key)
  }

  /** LastValue is the value of the last matching entry: one exists exactly
      when the key does, and no entry after it matches. */
  lemma {:induction false} LastValueIsLast(s: seq<Entry>, key: string)
    ensures !HasKey(s, key) ==> LastValue(s, key) == ""
    ensures HasKey(s, key) ==> exists i :: (0 <= i < |s| && s[i].0 == key && s[i].1 == LastValue(s, key)
      && forall j :: i < j < |s| ==> s[j].0 != key)
    decreases |s|
  {
    if |s| > 0 {
      var t := s[..|s| - 1];
      LastValueIsLast(t, key);
      if s[|s| - 1].0 == key {
        var i := |s| - 1;
        assert s[i].0 == key && s[i].1 == LastValue(s, key);
      } else {
        if HasKey(s, key) {
          var i :| 0 <= i < |s| && s[i].0 == key;
          assert t[i].0 == key;
          var i' :| 0 <= i' < |t| && t[i'].0 == key && t[i'].1 == LastValue(t, key)
            && forall j :: i' < j < |t| ==> t[j].0 != key;
          assert s[i'] == t[i'];
          assert 0 <= i' < |s| && s[i'].0 == key && s[i'].1 == LastValue(s, key) && forall j :: i' < j < |s| ==> s[j].0 != key;
        } else {
          assert !HasKey(t, key) by {
            forall i | 0 <= i < |t| ensures t[i].0 != key { assert t[i] == s[i]; }
          }
        }
      }
    }
  }

  /** get_element on a list. */
  function Get(s: seq<Entry>, key: string): Lookup
  {
    var v := LastValue(s, key);
    if v == "" then Exit else Found(v)
  }

  /** After assigning a non-empty value, get_element finds it exactly when
      the key is present. */
  lemma GetAfterAssign(s: seq<Entry>, key: string, value: string)
    requires value != ""
    ensures Get(Assign(s, key, value), key) == if HasKey(s, key) then Found(value) else Exit
  {
    var r := Assign(s, key, value);
    LastValueIsLast(r, key);
    if HasKey(s, key) {
      var i :| 0 <= i < |s| && s[i].0 == key;
      assert r[i].0 == key;
    } else {
      assert r == s;
    }
  }

  /** Assigning one key does not change what another key looks up. */
  lemma GetOtherAfterAssign(s: seq<Entry>, key: string, value: string, other: string)
    requires other != key
    ensures Get(Assign(s, key, value), other) == Get(s, other)
  {
    AssignLastValue(s, key, value, other);
  }

  lemma {:induction false} AssignLastValue(s: seq<Entry>, key: string, value: string, other: string)
    requires other != key
    ensures LastValue(Assign(s, key, value), other) == LastValue(s, other)
    decreases |s|
  {
    if |s| > 0 {
      var r := Assign(s, key, value);
      assert r[..|r| - 1] == Assign(s[..|s| - 1], key, value);
      AssignLastValue(s[..|s| - 1], key, value, other);
    }
  }

  // ---------------------------------------------------------------------------
  // The simfile object.
  // ---------------------------------------------------------------------------

  class Simfile {
    /** The (element, value) pairs, in file order. */
    var simElements: seq<Entry>

    /** __init__: read the lines of the reference simfile until readline
        returns the empty string, appending the pair of every kept line.
        Past the end of `lines` readline keeps returning the empty string. */
    constructor Init(lines: seq<string>)
      ensures simElements == Parse(lines)
    {
      var found: seq<Entry> := [];
      var eof := false;
      var i := 0;
      while !eof
        invariant 0 <= i <= |lines| + 1
        invariant !eof ==> i <= |lines| && forall j :: 0 <= j < i ==> lines[j] != ""
        invariant !eof ==> found == Parse(lines[..i])
        invariant eof ==> found == Parse(lines)
        decreases if eof then 0 else 1, |lines| + 1 - i
      {
        var line := if i < |lines| then lines[i] else "";
        ghost var seen := lines[..i];
        if line == "" {
          eof := true;
          PrefixParse(lines, i);
        }
        var ws := Split(line);
        if |ws| > 2 {
          if ws[0] == ">" {
            var value := DropCr(DropNewlines(ws[2]));
            found := found + [(ws[1], value)];
          }
        }
        if !eof {
          assert lines[..i + 1] == seen + [line];
          ParseAppend(seen, line);
        }
        i := i + 1;
      }
      simElements := found;
    }

    /** assign_element: every entry named key gets the value; `found` is
        false exactly when none is, where the source prints its error. */
    method AssignElement(key: string, value: string) returns (found: bool)
      modifies this
      ensures simElements == Assign(old(simElements), key, value)
      ensures found <==> HasKey(old(simElements), key)
    {
      found := false;
      var i := 0;
      while i < |simElements|
        invariant 0 <= i <= |simElements| == |old(simElements)|
        invariant forall j :: 0 <= j < i ==> simElements[j] == Assign(old(simElements), key, value)[j]
        invariant forall j :: i <= j < |simElements| ==> simElements[j] == old(simElements)[j]
        invariant found <==> exists j :: 0 <= j < i && old(simElements)[j].0 == key
      {
        if simElements[i].0 == key {
          simElements := simElements[i := (simElements[i].0, value)];
          found := true;
        }
        i := i + 1;
      }
      assert simElements == Assign(old(simElements), key, value);
    }

    /** get_element: the value of the last entry named key; Exit when there
        is none or its value is empty. */
    method GetElement(key: string) returns (r: Lookup)
      ensures r == Get(simElements, key)
    {
      var returnValue := "";
      var i := 0;
      while i < |simElements|
        invariant 0 <= i <= |simElements|
        invariant returnValue == LastValue(simElements[..i], key)
      {
        if simElements[i].0 == key {
          returnValue := simElements[i].1;
        }
        assert simElements[..i + 1][..i] == simElements[..i];
        i := i + 1;
      }
      assert simElements[..i] == simElements;
      if returnValue == "" {
        r := Exit;
      } else {
        r := Found(returnValue);
      }
    }

    /** write_simfile: the lines of the file, one per entry in list order. */
    method WriteSimfile() returns (out: seq<string>)
      ensures out == Lines(simElements)
    {
      out := [];
      var i := 0;
      while i < |simElements|
        invariant 0 <= i <= |simElements|
        invariant out == Lines(simElements[..i])
      {
        out := out + ["> " + simElements[i].0 + " " + simElements[i].1 + "\n"];
        i := i + 1;
        LinesPrefix(simElements, i);
      }
      assert simElements[..i] == simElements;
    }
  }

  lemma LinesPrefix(s: seq<Entry>, i: nat)
    requires 0 < i <= |s|
    ensures Lines(s[..i]) == Lines(s[..i - 1]) + [Line(s[i - 1])]
  {
  }

  /** Once the end of file is reached at index i, the parse of the lines
      before it is the parse of the whole file. */
  lemma {:induction false} PrefixParse(lines: seq<string>, i: nat)
    requires i <= |lines| && (i == |lines| || lines[i] == "")
    requires forall j :: 0 <= j < i ==> lines[j] != ""
    ensures Parse(lines[..i]) == Parse(lines)
    decreases i
  {
    if i > 0 {
      assert lines[..i][1..] == lines[1..][..i - 1];
      PrefixParse(lines[1..], i - 1);
    } else if |lines| > 0 {
      assert lines[..0] == [];
    }
  }
}
