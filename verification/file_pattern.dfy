/**
 * The file-name prefix a stakeholder's stream path gives its process instance: the file name is
 * matched against the JavaScript regular expression `/\d+-(.+)-[^/]+\.csv$/` and the prefix is
 * the directory, the leading digits and the captured group, each followed by a separator.
 *
 * The regular expression is modelled by the way a backtracking engine finds its first match:
 * starts are tried from the left; at a start the digit run must be the whole run (a shorter
 * one is followed by a digit, not `-`); the group `(.+)` is greedy, so it ends at the last `-`
 * that still leaves `[^/]+\.csv` up to the end of the text; `.` matches any character but a
 * line terminator.
 */
module FilePattern {
  import opened Wrappers
  import opened JsStrings

  /** The characters the regex `.` does not match. */
  predicate IsLineTerminator(c: char)
  {
    c == '\n' || c == '\r' || c == '\U{2028}' || c == '\U{2029}'
  }

  const CsvSuffix := ".csv"

  predicate EndsWith(s: string, suffix: string)
  {
    |suffix| <= |s| && s[|s| - |suffix|..] == suffix
  }

  /** `[^/]+\.csv$` matches `s[t..]`. */
  predicate TailMatches(s: string, t: nat)
  {
    && t + 5 <= |s|
    && EndsWith(s, CsvSuffix)
    && forall j :: t <= j < |s| - 4 ==> s[j] != '/'
  }

  /** `(.+)-[^/]+\.csv$` matches `s[q..]` with the group `s[q..e]`. */
  predicate GroupMatches(s: string, q: nat, e: nat)
  {
    && q < e < |s|
    && s[e] == '-'
    && TailMatches(s, e + 1)
    && forall j :: q <= j < e ==> !IsLineTerminator(s[j])
  }

  /** The greedy group: the largest end, at most `e`, that lets the rest match. */
  function LargestGroupEnd(s: string, q: nat, e: nat): (r: Option<nat>)
    ensures r.Some? ==> q < r.value <= e
    decreases e
  {
    if e <= q then None
    else if GroupMatches(s, q, e) then Some(e)
    else LargestGroupEnd(s, q, e - 1)
  }

  /** The end found lets the rest match and no larger end up to `e` does; without one, none does. */
  lemma {:induction false} LargestGroupEndSpec(s: string, q: nat, e: nat)
    ensures var r := LargestGroupEnd(s, q, e);
      && (r.Some? ==> GroupMatches(s, q, r.value))
      && (r.Some? ==> forall e' :: r.value < e' <= e ==> !GroupMatches(s, q, e'))
      && (r.None? ==> forall e' :: q < e' <= e ==> !GroupMatches(s, q, e'))
    decreases e
  {
    if e > q && !GroupMatches(s, q, e) {
      LargestGroupEndSpec(s, q, e - 1);
    }
  }

  /** No group from `q` ending after `e` lets the rest match. */
  predicate NoGroupBeyond(s: string, q: nat, e: nat)
  {
    forall e' :: e < e' < |s| ==> !GroupMatches(s, q, e')
  }

  /** Where a match found its digits `s[start..digitsEnd]` and its group `s[digitsEnd + 1..groupEnd]`. */
  datatype RegexMatch = RegexMatch(start: nat, digitsEnd: nat, groupEnd: nat)

  /**
   * The match the engine finds when it starts at `p`, if any: the whole digit run from `p`, a
   * `-`, then the greedy group; without such a group there is no match at `p`.
   */
  function MatchAt(s: string, p: nat): (r: Option<RegexMatch>)
    requires p <= |s|
    ensures r.Some? ==> r.value.start == p && p < r.value.digitsEnd && r.value.digitsEnd + 1 < r.value.groupEnd < |s|
  {
    var d := DigitSpan(s[p..], false);
    if d == 0 || p + d >= |s| || s[p + d] != '-' then None
    else match LargestGroupEnd(s, p + d + 1, |s| - 1)
      case None => None
      case Some(e) => Some(RegexMatch(p, p + d, e))
  }

  /**
   * A match at `p` is exactly the whole digit run from `p`, non-empty and followed by `-`, then
   * the longest group after it that lets the rest of the pattern match.
   */
  lemma MatchAtIff(s: string, p: nat, d: nat, e: nat)
    requires p <= |s|
    ensures MatchAt(s, p) == Some(RegexMatch(p, d, e))
        <==> (&& p < d == p + DigitSpan(s[p..], false)
              && d < |s| && s[d] == '-'
              && GroupMatches(s, d + 1, e)
              && NoGroupBeyond(s, d + 1, e))
  {
    if |s| > 0 {
      LargestGroupEndSpec(s, p + DigitSpan(s[p..], false) + 1, |s| - 1);
    }
  }

  /** There is no match at `p` exactly when the digit run, the `-` or every group fails. */
  lemma NoMatchAtIff(s: string, p: nat)
    requires p <= |s|
    ensures var d := DigitSpan(s[p..], false);
      MatchAt(s, p).None? <==> (d == 0 || p + d >= |s| || s[p + d] != '-' || NoGroupBeyond(s, p + d + 1, p + d + 1))
  {
    if |s| > 0 {
      LargestGroupEndSpec(s, p + DigitSpan(s[p..], false) + 1, |s| - 1);
    }
  }

  /** The digits of a match are decimal digits. */
  lemma MatchDigits(s: string, m: RegexMatch)
    requires m.start <= |s| && MatchAt(s, m.start) == Some(m)
    ensures forall j :: m.start <= j < m.digitsEnd ==> IsDecimalDigit(s[j])
  {
    var t := s[m.start..];
    assert forall j :: m.start <= j < m.digitsEnd ==> s[j] == t[j - m.start];
  }

  /** `s.match(...)` from `p` on: the leftmost start at which there is a match. */
  function LeftmostMatch(s: string, p: nat): (r: Option<RegexMatch>)
    requires p <= |s|
    ensures r.Some? ==> p <= r.value.start <= |s| && MatchAt(s, r.value.start) == r
    decreases |s| - p
  {
    var m := MatchAt(s, p);
    if m.Some? then m
    else if p == |s| then None
    else LeftmostMatch(s, p + 1)
  }

  /** The match found is the leftmost: no earlier start matches. */
  lemma {:induction false} LeftmostIsFirst(s: string, p: nat)
    requires p <= |s| && LeftmostMatch(s, p).Some?
    ensures forall p' :: p <= p' < LeftmostMatch(s, p).value.start ==> MatchAt(s, p').None?
    decreases |s| - p
  {
    var start := LeftmostMatch(s, p).value.start;
    if MatchAt(s, p).None? {
      assert p < |s| && LeftmostMatch(s, p + 1) == LeftmostMatch(s, p);
      LeftmostIsFirst(s, p + 1);
      forall p' | p <= p' < start
        ensures MatchAt(s, p').None?
      {
        if p' == p {
        } else {
          assert p + 1 <= p' < LeftmostMatch(s, p + 1).value.start;
        }
      }
    }
  }

  /** When no match is found, no start matches. */
  lemma {:induction false} NoMatchAnywhere(s: string, p: nat)
    requires p <= |s| && LeftmostMatch(s, p).None?
    ensures forall p' :: p <= p' <= |s| ==> MatchAt(s, p').None?
    decreases |s| - p
  {
    if p < |s| {
      assert LeftmostMatch(s, p + 1) == LeftmostMatch(s, p);
      NoMatchAnywhere(s, p + 1);
      forall p' | p <= p' <= |s|
        ensures MatchAt(s, p').None?
      {
        if p' != p {
          assert p + 1 <= p' <= |s|;
        }
      }
    }
  }

  /**
   * The prefix `dir/digits-group-` a stakeholder stream path yields, or `None` when the path has
   * fewer than three segments or its file name does not match.
   */
  function InstancePrefix(path: string): Option<string>
  {
    var parts := Split(path, '/');
    if |parts| < 3 then None else DirPrefix(parts[..|parts| - 1], parts[|parts| - 1])
  }

  /** The prefix for the file `fileName` in the directory of segments `dir`. */
  function DirPrefix(dir: seq<string>, fileName: string): Option<string>
  {
    match LeftmostMatch(fileName, 0)
      case None => None
      case Some(m) => Some(Join(dir, '/') + "/" + MatchPrefix(fileName, m))
  }

  /** `${match[0].split('-')[0]}-${match[1]}-` */
  function MatchPrefix(fileName: string, m: RegexMatch): string
    requires m.start <= m.digitsEnd < m.groupEnd <= |fileName|
  {
    Split(fileName[m.start..], '-')[0] + "-" + fileName[m.digitsEnd + 1..m.groupEnd] + "-"
  }

  /** A path of fewer than three segments yields no prefix. */
  lemma ShallowPathNoPrefix(path: string)
    requires |Split(path, '/')| < 3
    ensures InstancePrefix(path) == None
  {
  }

  /** A file name that does not end in `.csv` yields no prefix. */
  lemma NotCsvNoPrefix(path: string)
    requires !EndsWith(Split(path, '/')[|Split(path, '/')| - 1], CsvSuffix)
    ensures InstancePrefix(path) == None
  {
    var parts := Split(path, '/');
    NotCsvNoMatch(parts[|parts| - 1]);
  }

  /** A file name that does not end in `.csv` is not matched. */
  lemma NotCsvNoMatch(fileName: string)
    requires !EndsWith(fileName, CsvSuffix)
    ensures LeftmostMatch(fileName, 0) == None
  {
    var m := LeftmostMatch(fileName, 0);
    if m.Some? {
      assert MatchAt(fileName, m.value.start) == m;
      assert m.value.digitsEnd - m.value.start == DigitSpan(fileName[m.value.start..], false);
      LargestGroupEndSpec(fileName, m.value.digitsEnd + 1, |fileName| - 1);
    }
  }

  /** The digits the match starts with are the text before the first `-` of the matched text. */
  lemma MatchedDigits(s: string, m: RegexMatch)
    requires m.start <= |s| && MatchAt(s, m.start) == Some(m)
    ensures Split(s[m.start..], '-')[0] == s[m.start..m.digitsEnd]
  {
    var t := s[m.start..];
    var d := m.digitsEnd - m.start;
    assert d == DigitSpan(t, false);
    assert t[d] == '-';
    forall j | 0 <= j < d ensures t[j] != '-' {
      assert IsDecimalDigit(t[j]);
    }
    assert IndexOf(t, '-') == d;
    assert t[..d] == s[m.start..m.digitsEnd];
  }

  /** The file name `digits-group-rest.csv` holds no `/` when its parts hold none. */
  lemma FileNameNoSlash(digits: string, group: string, rest: string)
    requires '/' !in digits && '/' !in group && '/' !in rest
    ensures '/' !in digits + "-" + group + "-" + rest + CsvSuffix
  {
    var fileName := digits + "-" + group + "-" + rest + CsvSuffix;
    forall j | 0 <= j < |fileName| ensures fileName[j] != '/' {
      if j < |digits| {
        assert fileName[j] == digits[j];
      } else if |digits| < j < |digits| + 1 + |group| {
        assert fileName[j] == group[j - |digits| - 1];
      } else if |digits| + |group| + 1 < j < |digits| + |group| + 2 + |rest| {
        assert fileName[j] == rest[j - |digits| - |group| - 2];
      }
    }
  }

  /** In `digits-group-rest.csv` with no `-` in `rest`, the greedy group is `group`. */
  lemma GreedyGroup(digits: string, group: string, rest: string)
    requires |group| > 0 && forall j :: 0 <= j < |group| ==> !IsLineTerminator(group[j])
    requires |rest| > 0 && '-' !in rest && '/' !in rest
    ensures var fileName := digits + "-" + group + "-" + rest + CsvSuffix;
      LargestGroupEnd(fileName, |digits| + 1, |fileName| - 1) == Some(|digits| + 1 + |group|)
  {
    var fileName := digits + "-" + group + "-" + rest + CsvSuffix;
    var q := |digits| + 1;
    var e := q + |group|;
    assert GroupMatches(fileName, q, e) by {
      assert fileName[e] == '-';
      assert fileName[|fileName| - 4..] == CsvSuffix;
      forall j | q <= j < e ensures !IsLineTerminator(fileName[j]) {
        assert fileName[j] == group[j - q];
      }
      forall j | e + 1 <= j < |fileName| - 4 ensures fileName[j] != '/' {
        assert fileName[j] == rest[j - e - 1];
      }
    }
    LargestGroupEndSpec(fileName, q, |fileName| - 1);
    forall e' | e < e' <= |fileName| - 1 ensures fileName[e'] != '-' {
      if e' < |fileName| - 4 {
        assert fileName[e'] == rest[e' - e - 1];
      } else {
        assert fileName[e'] == CsvSuffix[e' - (|fileName| - 4)];
      }
    }
  }

  /** `digits-group-rest.csv` is matched from its start, with the digits and group it was built from. */
  lemma FileNameMatch(digits: string, group: string, rest: string)
    requires |digits| > 0 && forall j :: 0 <= j < |digits| ==> IsDecimalDigit(digits[j])
    requires |group| > 0 && forall j :: 0 <= j < |group| ==> !IsLineTerminator(group[j])
    requires |rest| > 0 && '-' !in rest && '/' !in rest
    ensures var fileName := digits + "-" + group + "-" + rest + CsvSuffix;
      LeftmostMatch(fileName, 0) == Some(RegexMatch(0, |digits|, |digits| + 1 + |group|))
  {
    var fileName := digits + "-" + group + "-" + rest + CsvSuffix;
    var tail := "-" + group + "-" + rest + CsvSuffix;
    assert fileName == digits + tail && tail[0] == '-';
    assert DigitSpan(fileName, false) == |digits| by {
      DigitSpanOfDigits(digits, tail);
    }
    assert |digits| < |fileName| && fileName[|digits|] == '-';
    var e := |digits| + 1 + |group|;
    assert LargestGroupEnd(fileName, |digits| + 1, |fileName| - 1) == Some(e) by {
      GreedyGroup(digits, group, rest);
    }
    MatchFromStart(fileName, |digits|, e);
  }

  /** A match at the start of the text is the one found. */
  lemma MatchFromStart(s: string, d: nat, e: nat)
    requires 0 < d < |s| && DigitSpan(s, false) == d && s[d] == '-'
    requires LargestGroupEnd(s, d + 1, |s| - 1) == Some(e)
    ensures LeftmostMatch(s, 0) == Some(RegexMatch(0, d, e))
  {
    assert s[0..] == s;
  }

  /** The digits and the group are where `digits-group-rest.csv` was built with them. */
  lemma FileNamePieces(digits: string, group: string, rest: string, fileName: string)
    requires fileName == digits + "-" + group + "-" + rest + CsvSuffix
    ensures fileName[0..|digits|] == digits
    ensures fileName[|digits| + 1..|digits| + 1 + |group|] == group
  {
    var w := digits + "-" + group;
    assert fileName == w + ("-" + rest + CsvSuffix);
    assert fileName[..|w|] == w;
    assert fileName[0..|digits|] == w[..|digits|] == digits;
    assert fileName[|digits| + 1..|digits| + 1 + |group|] == w[|digits| + 1..] == group;
  }

  /** The prefix a path yields once its segments and its file name's match are known. */
  lemma PrefixFromMatch(path: string, dir: seq<string>, fileName: string, m: RegexMatch)
    requires Split(path, '/') == dir + [fileName] && |dir| >= 2
    requires LeftmostMatch(fileName, 0) == Some(m)
    ensures InstancePrefix(path) == Some(Join(dir, '/') + "/" + (fileName[m.start..m.digitsEnd] + "-"
                                         + fileName[m.digitsEnd + 1..m.groupEnd] + "-"))
  {
    assert InstancePrefix(path) == DirPrefix(dir, fileName) by {
      PrefixOfSegments(path, dir, fileName);
    }
    assert Split(fileName[m.start..], '-')[0] == fileName[m.start..m.digitsEnd] by {
      MatchedDigits(fileName, m);
    }
  }

  /** A path of at least three segments yields the prefix of its directory and file name. */
  lemma PrefixOfSegments(path: string, dir: seq<string>, fileName: string)
    requires Split(path, '/') == dir + [fileName] && |dir| >= 2
    ensures InstancePrefix(path) == DirPrefix(dir, fileName)
  {
    var parts := dir + [fileName];
    assert parts[|parts| - 1] == fileName;
    assert parts[..|parts| - 1] == dir;
  }

  /** The segments of `dir/digits-group-rest.csv` are those of `dir` and the file name. */
  lemma PathSegments(dir: seq<string>, digits: string, group: string, rest: string, fileName: string, path: string)
    requires forall k :: 0 <= k < |dir| ==> '/' !in dir[k]
    requires forall j :: 0 <= j < |digits| ==> IsDecimalDigit(digits[j])
    requires forall j :: 0 <= j < |group| ==> group[j] != '/'
    requires '/' !in rest
    requires fileName == digits + "-" + group + "-" + rest + CsvSuffix
    requires path == Join(dir + [fileName], '/')
    ensures Split(path, '/') == dir + [fileName]
  {
    assert '/' !in digits;
    assert '/' !in group;
    FileNameNoSlash(digits, group, rest);
    SplitJoin(dir + [fileName], '/');
  }

  /**
   * A file name `digits-group-rest.csv` whose `rest` holds no `-` is matched from its start, with
   * the group running to the last `-`; so a path whose segments are `dir` (at least two) and
   * `digits-group-rest.csv` yields the prefix `dir/digits-group-`.
   */
  lemma PrefixOfPath(dir: seq<string>, digits: string, group: string, rest: string, fileName: string, path: string)
    requires |dir| >= 2
    requires |digits| > 0 && forall j :: 0 <= j < |digits| ==> IsDecimalDigit(digits[j])
    requires |group| > 0 && forall j :: 0 <= j < |group| ==> !IsLineTerminator(group[j])
    requires |rest| > 0 && '-' !in rest && '/' !in rest
    requires fileName == digits + "-" + group + "-" + rest + CsvSuffix
    requires Split(path, '/') == dir + [fileName]
    ensures InstancePrefix(path) == Some(Join(dir, '/') + "/" + (digits + "-" + group + "-"))
  {
    FileNameMatch(digits, group, rest);
    FileNamePieces(digits, group, rest, fileName);
    PrefixFromMatch(path, dir, fileName, RegexMatch(0, |digits|, |digits| + 1 + |group|));
  }

  lemma ExampleParts(dir: seq<string>, fileName: string)
    requires dir == ["shipment-1-data", "AMS-CDG"] && fileName == "06-AMS-CDG-stakeholder.csv"
    ensures fileName == "06" + "-" + "AMS-CDG" + "-" + "stakeholder" + CsvSuffix
    ensures dir + [fileName] == ["shipment-1-data", "AMS-CDG", "06-AMS-CDG-stakeholder.csv"]
    ensures "06" + "-" + "AMS-CDG" + "-" == "06-AMS-CDG-"
    ensures forall k :: 0 <= k < |dir| ==> '/' !in dir[k]
    ensures '-' !in "stakeholder" && '/' !in "stakeholder"
  {
  }

  /** The prefix of the example stakeholder path. */
  lemma ExamplePrefix(path: string)
    requires path == Join(["shipment-1-data", "AMS-CDG", "06-AMS-CDG-stakeholder.csv"], '/')
    ensures InstancePrefix(path) == Some(Join(["shipment-1-data", "AMS-CDG"], '/') + "/" + "06-AMS-CDG-")
  {
    var dir := ["shipment-1-data", "AMS-CDG"];
    var fileName := "06-AMS-CDG-stakeholder.csv";
    ExampleParts(dir, fileName);
    PathSegments(dir, "06", "AMS-CDG", "stakeholder", fileName, path);
    PrefixOfPath(dir, "06", "AMS-CDG", "stakeholder", fileName, path);
  }
}
