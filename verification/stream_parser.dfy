/**
 * Reading one entity's recorded event stream: the text is split into lines; a blank line, or
 * a line whose first `;`-separated field is not a number, is skipped; every other line
 * becomes one event whose remaining fields alternate name, value, name, value, ...
 */
module StreamParser {
  import opened Wrappers
  import opened JsStrings

  /** One recorded occurrence: its time offset and its field names and values, in line order. */
  datatype Event = Event(time: int, dataNames: seq<string>, datas: seq<string>)

  /** `text.replace(/\r\n/g, '\n')`: every CR LF pair, scanned left to right, becomes LF. */
  function NormalizeLineEnds(text: string): string
  {
    if |text| == 0 then ""
    else if |text| >= 2 && text[0] == '\r' && text[1] == '\n' then "\n" + NormalizeLineEnds(text[2..])
    else [text[0]] + NormalizeLineEnds(text[1..])
  }

  /** The elements at even positions 0, 2, 4, ... */
  function EvenPositions(f: seq<string>): seq<string>
  {
    seq((|f| + 1) / 2, j requires 0 <= j < (|f| + 1) / 2 => f[2 * j])
  }

  /** The elements at odd positions 1, 3, 5, ... */
  function OddPositions(f: seq<string>): seq<string>
  {
    seq(|f| / 2, j requires 0 <= j < |f| / 2 => f[2 * j + 1])
  }

  /**
   * The event one line yields, or `None` when the line is skipped. After the time field the
   * fields alternate: names at odd positions of the line, values at even ones.
   */
  function LineEvent(line: string): Option<Event>
  {
    if IsBlank(line) then None
    else
      var elements := Split(line, ';');
      match ParseInt(elements[0])
      case None => None
      case Some(t) => Some(Event(t, EvenPositions(elements[1..]), OddPositions(elements[1..])))
  }

  /** The event a line contributes: none when it is skipped. */
  function LineEvents(line: string): seq<Event>
  {
    match LineEvent(line) case Some(e) => [e] case None => []
  }

  /** The events of a sequence of lines, in line order. */
  function Collect(lines: seq<string>): seq<Event>
  {
    if |lines| == 0 then []
    else Collect(lines[..|lines| - 1]) + LineEvents(lines[|lines| - 1])
  }

  /** The events of a whole stream file's text. */
  function StreamEvents(text: string): seq<Event>
  {
    Collect(Split(NormalizeLineEnds(text), '\n'))
  }

  /** Names and values put back in alternation: name, value, name, value, ... */
  function Interleave(names: seq<string>, values: seq<string>): seq<string>
    requires |values| <= |names| <= |values| + 1
  {
    if |names| == 0 then []
    else if |values| == 0 then [names[0]]
    else [names[0], values[0]] + Interleave(names[1..], values[1..])
  }

  // ---------------------------------------------------------------------------
  // The parsing code (main.js readStreamFiles, lines 224-253)
  // ---------------------------------------------------------------------------

  /** One line: skip it, or turn it into an event by sorting its fields into names and values. */
  method ParseLine(line: string) returns (r: Option<Event>)
    ensures r == LineEvent(line)
  {
    if IsBlank(line) {
      return None;
    }
    var elements := Split(line, ';');
    var time := ParseInt(elements[0]);
    if time.None? {
      return None;
    }
    var names, values := SortFields(elements);
    r := Some(Event(time.value, names, values));
  }

  /** The field loop: after the time, odd positions of the line are names and even ones values. */
  method SortFields(elements: seq<string>) returns (names: seq<string>, values: seq<string>)
    requires |elements| >= 1
    ensures names == EvenPositions(elements[1..]) && values == OddPositions(elements[1..])
  {
    names := [];
    values := [];
    var i := 1;
    while i < |elements|
      invariant 1 <= i <= |elements|
      invariant names == EvenPositions(elements[1..i]) && values == OddPositions(elements[1..i])
    {
      assert |elements[1..i]| == i - 1 && ((i - 1) % 2 == 0 <==> i % 2 == 1);
      PositionsSnoc(elements[1..i], elements[i]);
      assert elements[1..i + 1] == elements[1..i] + [elements[i]];
      if i % 2 == 1 {
        names := names + [elements[i]];
      } else {
        values := values + [elements[i]];
      }
      i := i + 1;
    }
    assert elements[1..i] == elements[1..];
  }

  /** A whole file's text: normalise line ends, split into lines, collect the events in order. */
  method ParseStream(text: string) returns (events: seq<Event>)
    ensures events == StreamEvents(text)
  {
    var lines := Split(NormalizeLineEnds(text), '\n');
    events := [];
    for k := 0 to |lines|
      invariant events == Collect(lines[..k])
    {
      var e := ParseLine(lines[k]);
      CollectSnoc(lines, k);
      if e.Some? {
        events := events + [e.value];
      }
    }
    assert lines[..|lines|] == lines;
  }

  // ---------------------------------------------------------------------------
  // Properties
  // ---------------------------------------------------------------------------

  /**
   * A parsed line loses nothing: its time field, followed by its names and values put back in
   * alternation, is exactly the list of its fields, so joining them with `;` rebuilds the line.
   */
  lemma LineEventRoundTrip(line: string)
    requires LineEvent(line).Some?
    ensures var e := LineEvent(line).value;
      && |e.datas| <= |e.dataNames| <= |e.datas| + 1
      && ParseInt(Split(line, ';')[0]) == Some(e.time)
      && Join([Split(line, ';')[0]] + Interleave(e.dataNames, e.datas), ';') == line
  {
    var elements := Split(line, ';');
    InterleavePositions(elements[1..]);
    assert [elements[0]] + elements[1..] == elements;
    JoinSplit(line, ';');
  }

  /** One more field goes to the names after an even number of fields, else to the values. */
  lemma PositionsSnoc(f: seq<string>, x: string)
    ensures EvenPositions(f + [x]) == if |f| % 2 == 0 then EvenPositions(f) + [x] else EvenPositions(f)
    ensures OddPositions(f + [x]) == if |f| % 2 == 1 then OddPositions(f) + [x] else OddPositions(f)
  {
    var g := f + [x];
    assert forall j :: 0 <= j < |f| ==> g[j] == f[j];
  }

  lemma EvenPositionsStep(f: seq<string>)
    requires |f| >= 2
    ensures EvenPositions(f) == [f[0]] + EvenPositions(f[2..])
  {
    var r := EvenPositions(f);
    forall j | 1 <= j < |r| ensures r[j] == EvenPositions(f[2..])[j - 1] {
      assert f[2..][2 * (j - 1)] == f[2 * j];
    }
  }

  lemma OddPositionsStep(f: seq<string>)
    requires |f| >= 2
    ensures OddPositions(f) == [f[1]] + OddPositions(f[2..])
  {
    var r := OddPositions(f);
    forall j | 1 <= j < |r| ensures r[j] == OddPositions(f[2..])[j - 1] {
      assert f[2..][2 * (j - 1) + 1] == f[2 * j + 1];
    }
  }

  /** Splitting the fields into names and values and interleaving them again is the identity. */
  lemma {:induction false} InterleavePositions(f: seq<string>)
    ensures |OddPositions(f)| <= |EvenPositions(f)| <= |OddPositions(f)| + 1
    ensures Interleave(EvenPositions(f), OddPositions(f)) == f
    decreases |f|
  {
    if |f| == 1 {
      assert EvenPositions(f) == [f[0]];
      assert OddPositions(f) == [];
    } else if |f| >= 2 {
      EvenPositionsStep(f);
      OddPositionsStep(f);
      InterleavePositions(f[2..]);
      assert f == [f[0], f[1]] + f[2..];
    }
  }

  lemma CollectSnoc(lines: seq<string>, k: nat)
    requires k < |lines|
    ensures Collect(lines[..k + 1]) == Collect(lines[..k]) + LineEvents(lines[k])
  {
    assert lines[..k + 1][..k] == lines[..k];
  }

  /** Collecting is done line by line: the events of two stretches of lines are concatenated. */
  lemma {:induction false} CollectAppend(a: seq<string>, b: seq<string>)
    ensures Collect(a + b) == Collect(a) + Collect(b)
    decreases |b|
  {
    if |b| == 0 {
      assert a + b == a;
    } else {
      var n := |b| - 1;
      assert (a + b)[..|a + b| - 1] == a + b[..n] && (a + b)[|a + b| - 1] == b[n];
      CollectAppend(a, b[..n]);
    }
  }

  /**
   * A skipped line (blank, or with a non-numeric time) only drops itself: the lines before and
   * after it yield the same events, in the same order, as if it were not there.
   */
  lemma SkippedLineIsolated(before: seq<string>, bad: string, after: seq<string>)
    requires LineEvent(bad).None?
    ensures Collect(before + [bad] + after) == Collect(before) + Collect(after)
  {
    assert Collect(before + [bad]) == Collect(before) by {
      assert (before + [bad])[..|before|] == before;
    }
    CollectAppend(before + [bad], after);
  }

  /** A file never yields more events than it has lines. */
  lemma {:induction false} CollectBound(lines: seq<string>)
    ensures |Collect(lines)| <= |lines|
    decreases |lines|
  {
    if |lines| > 0 {
      CollectBound(lines[..|lines| - 1]);
    }
  }

  /** Every event collected is the event of one of the lines. */
  lemma {:induction false} CollectOrigin(lines: seq<string>, e: Event)
    requires e in Collect(lines)
    ensures exists k :: 0 <= k < |lines| && LineEvent(lines[k]) == Some(e)
    decreases |lines|
  {
    var n := |lines| - 1;
    if e in Collect(lines[..n]) {
      CollectOrigin(lines[..n], e);
      var k :| 0 <= k < n && LineEvent(lines[..n][k]) == Some(e);
      assert lines[k] == lines[..n][k];
    } else {
      assert e in LineEvents(lines[n]);
    }
  }

  /** Text without carriage returns is left as it is. */
  lemma {:induction false} NormalizeWithoutCr(text: string)
    requires '\r' !in text
    ensures NormalizeLineEnds(text) == text
    decreases |text|
  {
    if |text| > 0 {
      NormalizeWithoutCr(text[1..]);
      assert text == [text[0]] + text[1..];
    }
  }

  /** `lines.join('\r\n')` */
  function CrlfJoin(lines: seq<string>): string
  {
    if |lines| == 0 then ""
    else if |lines| == 1 then lines[0]
    else lines[0] + "\r\n" + CrlfJoin(lines[1..])
  }

  /** Where the text does not start with CR LF, its first character is kept as it is. */
  lemma NormalizeKeepsFirst(s: string)
    requires |s| > 0 && !(|s| >= 2 && s[0] == '\r' && s[1] == '\n')
    ensures NormalizeLineEnds(s) == [s[0]] + NormalizeLineEnds(s[1..])
  {
  }

  /** Text without LF holds no CR LF pair, so it normalises to itself. */
  lemma {:induction false} NormalizeLfFree(a: string)
    requires '\n' !in a
    ensures NormalizeLineEnds(a) == a
    decreases |a|
  {
    if |a| > 0 {
      NormalizeKeepsFirst(a);
      NormalizeLfFree(a[1..]);
      assert a == [a[0]] + a[1..];
    }
  }

  /** A line without LF followed by CR LF normalises to the line followed by LF. */
  lemma {:induction false} NormalizeLine(a: string, rest: string)
    requires '\n' !in a
    ensures NormalizeLineEnds(a + "\r\n" + rest) == a + "\n" + NormalizeLineEnds(rest)
    decreases |a|
  {
    var s := a + "\r\n" + rest;
    if |a| == 0 {
      assert s == "\r\n" + rest;
      assert s[2..] == rest;
    } else {
      assert s[1..] == a[1..] + "\r\n" + rest;
      assert s[1] == (if |a| >= 2 then a[1] else '\r');
      NormalizeKeepsFirst(s);
      NormalizeLine(a[1..], rest);
      assert a + "\n" + NormalizeLineEnds(rest) == [a[0]] + (a[1..] + "\n" + NormalizeLineEnds(rest));
    }
  }

  /**
   * Line-end normalisation: a file written with CR LF line ends normalises to the same text as
   * the one written with LF, provided no line holds an LF of its own.
   */
  lemma {:induction false} NormalizeCrlfJoin(lines: seq<string>)
    requires forall k :: 0 <= k < |lines| ==> '\n' !in lines[k]
    ensures NormalizeLineEnds(CrlfJoin(lines)) == Join(lines, '\n')
    decreases |lines|
  {
    if |lines| == 1 {
      NormalizeLfFree(lines[0]);
    } else if |lines| > 1 {
      NormalizeLine(lines[0], CrlfJoin(lines[1..]));
      NormalizeCrlfJoin(lines[1..]);
    }
  }

  /** So a CR LF file yields exactly the events of its lines, as an LF file does. */
  lemma CrlfFileEvents(lines: seq<string>)
    requires |lines| >= 1
    requires forall k :: 0 <= k < |lines| ==> '\n' !in lines[k]
    ensures StreamEvents(CrlfJoin(lines)) == Collect(lines)
  {
    NormalizeCrlfJoin(lines);
    SplitJoin(lines, '\n');
  }

  /** A line `time;n1;v1;...` written out from its parts yields the event of those parts. */
  lemma LineOfFields(t: nat, fields: seq<string>, line: string)
    requires forall k :: 0 <= k < |fields| ==> ';' !in fields[k]
    requires line == Join([ToDecimal(t)] + fields, ';')
    ensures LineEvent(line) == Some(Event(t, EvenPositions(fields), OddPositions(fields)))
  {
    var elements := [ToDecimal(t)] + fields;
    assert Split(line, ';') == elements by {
      assert ';' !in ToDecimal(t);
      SplitJoin(elements, ';');
    }
    assert ParseInt(elements[0]) == Some(t as int) by {
      ParseIntDecimal(t, "");
      assert ToDecimal(t) + "" == ToDecimal(t);
    }
    assert !IsBlank(line) by {
      if |fields| == 0 {
        assert line == ToDecimal(t);
      } else {
        assert line == ToDecimal(t) + [';'] + Join(fields, ';');
      }
      assert line[0] == ToDecimal(t)[0];
      assert !IsJsWhitespace(line[0]);
    }
    LineEventOfElements(line, elements, t);
    assert elements[1..] == fields;
  }

  /** A line that is not blank and whose first field reads as a number yields an event. */
  lemma LineEventOfElements(line: string, elements: seq<string>, t: int)
    requires !IsBlank(line) && Split(line, ';') == elements && ParseInt(elements[0]) == Some(t)
    ensures LineEvent(line) == Some(Event(t, EvenPositions(elements[1..]), OddPositions(elements[1..])))
  {
  }

  /** A line whose time field starts with a letter is skipped. */
  lemma LineWithoutTime(line: string)
    requires |line| > 0 && 'A' <= line[0] <= 'Z'
    ensures LineEvent(line) == None
  {
    var e0 := Split(line, ';')[0];
    var i := IndexOf(line, ';');
    assert !IsBlank(line) by { assert !IsJsWhitespace(line[0]); }
    assert i != 0;
    assert e0 == line[..i];
    assert e0[0] == line[0];
    assert TrimStart(e0) == e0;
    assert DigitSpan(e0, false) == 0;
  }

  /** An LF file yields exactly the events of its lines, in order. */
  lemma LfFileEvents(lines: seq<string>)
    requires |lines| >= 1
    requires forall k :: 0 <= k < |lines| ==> '\n' !in lines[k] && '\r' !in lines[k]
    ensures StreamEvents(Join(lines, '\n')) == Collect(lines)
  {
    JoinAvoids(lines, '\n', '\r');
    NormalizeWithoutCr(Join(lines, '\n'));
    SplitJoin(lines, '\n');
  }

  /** Of three lines whose middle one is skipped, the events of the outer two remain, in order. */
  lemma CollectSkipsMiddle(l1: string, l2: string, l3: string, e1: Event, e3: Event)
    requires LineEvent(l1) == Some(e1) && LineEvent(l2) == None && LineEvent(l3) == Some(e3)
    ensures Collect([l1, l2, l3]) == [e1, e3]
  {
    var lines := [l1, l2, l3];
    assert lines[..2] == [l1, l2] && lines[..2][..1] == [l1] && lines[..2][..1][..0] == [];
    assert Collect(lines[..2][..1]) == [e1];
    assert Collect(lines[..2]) == [e1];
  }

  /** A line joined from fields without line breaks holds none. */
  lemma LineBreakFree(fields: seq<string>, line: string)
    requires forall k :: 0 <= k < |fields| ==> '\n' !in fields[k] && '\r' !in fields[k]
    requires line == Join(fields, ';')
    ensures '\n' !in line && '\r' !in line
  {
    JoinAvoids(fields, ';', '\n');
    JoinAvoids(fields, ';', '\r');
  }

  /** A time written in decimal holds no line break. */
  lemma DecimalBreakFree(t: nat)
    ensures '\n' !in ToDecimal(t) && '\r' !in ToDecimal(t)
  {
    var s := ToDecimal(t);
    assert forall j :: 0 <= j < |s| ==> s[j] != '\n' && s[j] != '\r';
  }

  /** Fields that hold no separator and no line break. */
  predicate PlainField(f: string)
  {
    ';' !in f && '\n' !in f && '\r' !in f
  }

  /** Interleaved names and values are taken apart into the same names and values. */
  lemma {:induction false} PositionsOfInterleave(names: seq<string>, values: seq<string>)
    requires |values| <= |names| <= |values| + 1
    ensures EvenPositions(Interleave(names, values)) == names
    ensures OddPositions(Interleave(names, values)) == values
    decreases |names|
  {
    var f := Interleave(names, values);
    if |values| > 0 {
      var r := Interleave(names[1..], values[1..]);
      assert f == [names[0], values[0]] + r;
      EvenPositionsStep(f);
      OddPositionsStep(f);
      assert f[2..] == r;
      PositionsOfInterleave(names[1..], values[1..]);
      assert names == [names[0]] + names[1..];
      assert values == [values[0]] + values[1..];
    } else if |names| == 1 {
      assert f == [names[0]];
    }
  }

  /** Plain names and values interleave into plain fields. */
  lemma {:induction false} InterleavePlain(names: seq<string>, values: seq<string>)
    requires |values| <= |names| <= |values| + 1
    requires forall k :: 0 <= k < |names| ==> PlainField(names[k])
    requires forall k :: 0 <= k < |values| ==> PlainField(values[k])
    ensures forall k :: 0 <= k < |Interleave(names, values)| ==> PlainField(Interleave(names, values)[k])
    decreases |names|
  {
    var f := Interleave(names, values);
    if |values| > 0 {
      var r := Interleave(names[1..], values[1..]);
      InterleavePlain(names[1..], values[1..]);
      assert f == [names[0], values[0]] + r;
      forall k | 0 <= k < |f| ensures PlainField(f[k]) {
        if k >= 2 {
          assert f[k] == r[k - 2];
        }
      }
    } else if |names| == 1 {
      assert f == [names[0]];
    }
  }

  /**
   * A line written out as a time followed by plain names interleaved with their values yields
   * the event of exactly those names and values, and holds no line break.
   */
  lemma PairsLine(t: nat, names: seq<string>, values: seq<string>, line: string)
    requires |values| <= |names| <= |values| + 1
    requires forall k :: 0 <= k < |names| ==> PlainField(names[k])
    requires forall k :: 0 <= k < |values| ==> PlainField(values[k])
    requires line == Join([ToDecimal(t)] + Interleave(names, values), ';')
    ensures LineEvent(line) == Some(Event(t, names, values))
    ensures '\n' !in line && '\r' !in line
  {
    var f := Interleave(names, values);
    InterleavePlain(names, values);
    assert LineEvent(line) == Some(Event(t, EvenPositions(f), OddPositions(f))) by {
      LineOfFields(t, f, line);
    }
    PositionsOfInterleave(names, values);
    assert '\n' !in line && '\r' !in line by {
      var fields := [ToDecimal(t)] + f;
      DecimalBreakFree(t);
      forall k | 0 <= k < |fields| ensures '\n' !in fields[k] && '\r' !in fields[k] {
        if k > 0 {
          assert fields[k] == f[k - 1];
        }
      }
      LineBreakFree(fields, line);
    }
  }

  /**
   * The worked example: of the lines `10;name1;v1;name2;v2`, a line whose time field starts with
   * a letter (such as `NOTANUMBER;x;y`) and `20;name1;v3`, the middle line is skipped and the other
   * two yield events at 10 and 20, in file order. The names and values are any plain fields.
   */
  lemma ExampleStream(n1: string, v1: string, n2: string, v2: string, v3: string, l1: string, l2: string, l3: string)
    requires PlainField(n1) && PlainField(v1) && PlainField(n2) && PlainField(v2) && PlainField(v3)
    requires l1 == Join([ToDecimal(10)] + Interleave([n1, n2], [v1, v2]), ';')
    requires |l2| > 0 && 'A' <= l2[0] <= 'Z' && '\n' !in l2 && '\r' !in l2
    requires l3 == Join([ToDecimal(20)] + Interleave([n1], [v3]), ';')
    ensures StreamEvents(Join([l1, l2, l3], '\n')) == [Event(10, [n1, n2], [v1, v2]), Event(20, [n1], [v3])]
  {
    assert LineEvent(l1) == Some(Event(10, [n1, n2], [v1, v2])) && '\n' !in l1 && '\r' !in l1 by {
      var names := [n1, n2];
      var values := [v1, v2];
      assert names[0] == n1 && names[1] == n2 && values[0] == v1 && values[1] == v2;
      PairsLine(10, names, values, l1);
    }
    assert LineEvent(l3) == Some(Event(20, [n1], [v3])) && '\n' !in l3 && '\r' !in l3 by {
      PairsLine(20, [n1], [v3], l3);
    }
    LineWithoutTime(l2);
    var lines := [l1, l2, l3];
    forall k | 0 <= k < |lines| ensures '\n' !in lines[k] && '\r' !in lines[k] {
      if k == 0 {
        assert lines[k] == l1;
      } else if k == 1 {
        assert lines[k] == l2;
      } else {
        assert lines[k] == l3;
      }
    }
    LfFileEvents(lines);
    CollectSkipsMiddle(l1, l2, l3, Event(10, [n1, n2], [v1, v2]), Event(20, [n1], [v3]));
  }
}
