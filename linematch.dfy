/** The line matcher of searchRepo: split a file's text on "\n" and report
    every line the compiled search pattern matches, with its 1-based number.
    The compiled pattern is a predicate on one line (regexp.MatchString). */
module LineMatch {
  import opened GoStrings

  /** One reported line: its 1-based number and its text. */
  datatype Hit = Hit(line: nat, text: string)

  /** The hits among `lines[from..]`, numbered by their position in `lines`. */
  function Scan(matches: string -> bool, lines: seq<string>, from: nat): seq<Hit>
    requires from <= |lines|
    decreases |lines| - from
  {
    if from == |lines| then []
    else (if matches(lines[from]) then [Hit(from + 1, lines[from])] else []) + Scan(matches, lines, from + 1)
  }

  /** Every hit of the scan is a matching line of `lines[from..]`, with its own text. */
  lemma {:induction false} ScanSound(matches: string -> bool, lines: seq<string>, from: nat)
    requires from <= |lines|
    ensures forall h :: h in Scan(matches, lines, from) ==>
              from < h.line <= |lines| && h.text == lines[h.line - 1] && matches(h.text)
    decreases |lines| - from
  {
    if from < |lines| {
      ScanSound(matches, lines, from + 1);
      var r, rest := Scan(matches, lines, from), Scan(matches, lines, from + 1);
      var here := if matches(lines[from]) then [Hit(from + 1, lines[from])] else [];
      assert r == here + rest;
      forall h | h in r
        ensures from < h.line <= |lines| && h.text == lines[h.line - 1] && matches(h.text)
      {
        if h !in here {
          assert h in rest;
        }
      }
    }
  }

  /** The line numbers of the scan strictly increase. */
  lemma {:induction false} ScanIncreasing(matches: string -> bool, lines: seq<string>, from: nat)
    requires from <= |lines|
    ensures forall k, l :: 0 <= k < l < |Scan(matches, lines, from)| ==>
              Scan(matches, lines, from)[k].line < Scan(matches, lines, from)[l].line
    decreases |lines| - from
  {
    if from < |lines| {
      ScanIncreasing(matches, lines, from + 1);
      ScanSound(matches, lines, from + 1);
      var r, rest := Scan(matches, lines, from), Scan(matches, lines, from + 1);
      var here := if matches(lines[from]) then [Hit(from + 1, lines[from])] else [];
      assert r == here + rest;
      forall k, l | 0 <= k < l < |r|
        ensures r[k].line < r[l].line
      {
        assert r[l] == rest[l - |here|];
        assert r[l] in rest;
        if k >= |here| {
          assert r[k] == rest[k - |here|];
        } else {
          assert r[k] == Hit(from + 1, lines[from]);
        }
      }
    }
  }

  /** No matching line of `lines[from..]` is missed. */
  lemma {:induction false} ScanComplete(matches: string -> bool, lines: seq<string>, from: nat)
    requires from <= |lines|
    ensures forall j :: from <= j < |lines| && matches(lines[j]) ==> Hit(j + 1, lines[j]) in Scan(matches, lines, from)
    decreases |lines| - from
  {
    if from < |lines| {
      ScanComplete(matches, lines, from + 1);
      var r, rest := Scan(matches, lines, from), Scan(matches, lines, from + 1);
      var here := if matches(lines[from]) then [Hit(from + 1, lines[from])] else [];
      assert r == here + rest;
      forall j | from <= j < |lines| && matches(lines[j])
        ensures Hit(j + 1, lines[j]) in r
      {
        if j > from {
          assert Hit(j + 1, lines[j]) in rest;
        } else {
          assert r[0] == Hit(j + 1, lines[j]);
        }
      }
    }
  }

  /** The hits of a whole file's text. */
  function LineHits(matches: string -> bool, content: string): seq<Hit>
  {
    Scan(matches, Split(content, '\n'), 0)
  }

  /** What the matcher reports, stated without the scan: with k the number of
      pieces strings.Split produces (one more than the number of newlines),
      the reported numbers are strictly increasing and lie in 1..k, each
      carries the text of its piece, and number j + 1 is reported exactly
      when the pattern matches piece j. */
  lemma LineHitsSpec(matches: string -> bool, content: string)
    ensures forall k, l :: 0 <= k < l < |LineHits(matches, content)| ==>
              LineHits(matches, content)[k].line < LineHits(matches, content)[l].line
    ensures forall h :: h in LineHits(matches, content) ==>
              1 <= h.line <= |Split(content, '\n')| && h.text == Split(content, '\n')[h.line - 1]
    ensures forall j :: 0 <= j < |Split(content, '\n')| ==>
              (matches(Split(content, '\n')[j]) <==> Hit(j + 1, Split(content, '\n')[j]) in LineHits(matches, content))
  {
    var lines := Split(content, '\n');
    ScanSound(matches, lines, 0);
    ScanIncreasing(matches, lines, 0);
    ScanComplete(matches, lines, 0);
  }

  /** The loop of searchRepo over one file's lines: the hits it prints. */
  method MatchLines(matches: string -> bool, content: string) returns (hits: seq<Hit>)
    ensures hits == LineHits(matches, content)
  {
    var lines := Split(content, '\n');
    hits := [];
    for i := 0 to |lines|
      invariant hits + Scan(matches, lines, i) == Scan(matches, lines, 0)
    {
      var here := if matches(lines[i]) then [Hit(i + 1, lines[i])] else [];
      assert hits + (here + Scan(matches, lines, i + 1)) == (hits + here) + Scan(matches, lines, i + 1);
      if matches(lines[i]) {
        hits := hits + [Hit(i + 1, lines[i])];
      }
    }
    assert hits + [] == hits;
  }
}
