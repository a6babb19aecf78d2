/** The string operations the maze parser relies on: counting a character,
    splitting into lines, and the length of the longest line. */
module Text {

  /** `s.count(ch)` for a one-character argument. */
  function Count(s: string, ch: char): nat
  {
    if s == [] then 0 else (if s[0] == ch then 1 else 0) + Count(s[1..], ch)
  }

  /** The count is the multiplicity of `ch` in `s`. */
  lemma {:induction false} CountMultiset(s: string, ch: char)
    ensures Count(s, ch) == multiset(s)[ch]
  {
    if s != [] {
      CountMultiset(s[1..], ch);
      assert s == [s[0]] + s[1..];
    }
  }

  lemma {:induction false} CountConcat(a: string, b: string, ch: char)
    ensures Count(a + b, ch) == Count(a, ch) + Count(b, ch)
  {
    if a == [] {
      assert a + b == b;
    } else {
      assert (a + b)[1..] == a[1..] + b;
      CountConcat(a[1..], b, ch);
    }
  }

  /** A character is absent exactly when it is counted zero times. */
  lemma {:induction false} CountZero(s: string, ch: char)
    ensures Count(s, ch) == 0 <==> forall j :: 0 <= j < |s| ==> s[j] != ch
  {
    if s != [] {
      CountZero(s[1..], ch);
      assert forall j :: 1 <= j < |s| ==> s[j] == s[1..][j - 1];
    }
  }

  /** A character counted once occurs at exactly one index. */
  lemma {:induction false} CountOne(s: string, ch: char) returns (j: nat)
    requires Count(s, ch) == 1
    ensures j < |s| && s[j] == ch
    ensures forall k :: 0 <= k < |s| && k != j ==> s[k] != ch
  {
    if s[0] == ch {
      j := 0;
      CountZero(s[1..], ch);
      forall k | 0 <= k < |s| && k != j ensures s[k] != ch {
        assert s[k] == s[1..][k - 1];
      }
    } else {
      var j1 := CountOne(s[1..], ch);
      j := j1 + 1;
      forall k | 0 <= k < |s| && k != j ensures s[k] != ch {
        if k > 0 {
          assert s[k] == s[1..][k - 1];
        }
      }
    }
  }

  /** Index of the first '\n' of `s`, or |s| when there is none. */
  function NewlineIndex(s: string): (k: nat)
    ensures k <= |s|
    ensures k < |s| ==> s[k] == '\n'
    ensures forall i :: 0 <= i < k ==> s[i] != '\n'
  {
    if s == [] || s[0] == '\n' then 0 else 1 + NewlineIndex(s[1..])
  }

  /** `s.splitlines()` with '\n' as the only line break: every '\n' ends a
      line, and a final '\n' does not open an empty last line. */
  function SplitLines(s: string): (lines: seq<string>)
    ensures forall i :: 0 <= i < |lines| ==> '\n' !in lines[i]
    ensures s != [] <==> lines != []
    decreases |s|
  {
    var k := NewlineIndex(s);
    if k == |s| then (if s == [] then [] else [s])
    else [s[..k]] + SplitLines(s[k + 1..])
  }

  /** The lines glued back together with '\n' separators. */
  function JoinLines(lines: seq<string>): string
  {
    if |lines| == 0 then ""
    else if |lines| == 1 then lines[0]
    else lines[0] + "\n" + JoinLines(lines[1..])
  }

  lemma JoinCons(x: string, tail: seq<string>)
    ensures JoinLines([x] + tail) == if tail == [] then x else x + "\n" + JoinLines(tail)
  {
    assert ([x] + tail)[0] == x;
    if tail != [] {
      assert ([x] + tail)[1..] == tail;
    }
  }

  /** A string with a line break is its first line, the break, and the rest. */
  lemma SplitAt(s: string)
    requires NewlineIndex(s) < |s|
    ensures SplitLines(s) == [s[..NewlineIndex(s)]] + SplitLines(s[NewlineIndex(s) + 1..])
    ensures s == s[..NewlineIndex(s)] + "\n" + s[NewlineIndex(s) + 1..]
  {
    var k := NewlineIndex(s);
    Unsplit(s, k);
  }

  lemma Unsplit(s: string, k: nat)
    requires k < |s| && s[k] == '\n'
    ensures s == s[..k] + "\n" + s[k + 1..]
  {
    assert s[..k] + "\n" + s[k + 1..] == s[..k] + [s[k]] + s[k + 1..];
    assert s[..k] + [s[k]] == s[..k + 1];
  }

  /** Splitting loses nothing but a final line break, which it drops exactly
      when the contents end with one. */
  lemma {:induction false} SplitThenJoin(s: string)
    ensures if s != [] && s[|s| - 1] == '\n' then JoinLines(SplitLines(s)) + "\n" == s else JoinLines(SplitLines(s)) == s
    decreases |s|
  {
    var k := NewlineIndex(s);
    if k < |s| {
      var head, rest := s[..k], s[k + 1..];
      var tail := SplitLines(rest);
      SplitAt(s);
      SplitThenJoin(rest);
      JoinCons(head, tail);
      if tail == [] {
        assert JoinLines(SplitLines(s)) + "\n" == s;
      } else {
        var j := JoinLines(tail);
        assert JoinLines(SplitLines(s)) == head + "\n" + j;
        assert s[|s| - 1] == rest[|rest| - 1];
        if j == rest {
          assert JoinLines(SplitLines(s)) == s;
        } else {
          assert head + "\n" + j + "\n" == head + "\n" + (j + "\n");
        }
      }
    }
  }

  /** Occurrences of `ch` summed over all lines. */
  function CountAll(lines: seq<string>, ch: char): nat
  {
    if lines == [] then 0 else Count(lines[0], ch) + CountAll(lines[1..], ch)
  }

  /** Splitting keeps every character other than '\n'. */
  lemma {:induction false} CountLines(s: string, ch: char)
    requires ch != '\n'
    ensures CountAll(SplitLines(s), ch) == Count(s, ch)
    decreases |s|
  {
    var k := NewlineIndex(s);
    if k == |s| {
      if s != [] {
        assert SplitLines(s) == [s];
        assert SplitLines(s)[1..] == [];
      }
    } else {
      var rest := s[k + 1..];
      CountLines(rest, ch);
      assert s == s[..k] + ([s[k]] + rest);
      CountConcat(s[..k], [s[k]] + rest, ch);
      CountConcat([s[k]], rest, ch);
      assert [s[k]][1..] == [];
      assert SplitLines(s)[1..] == SplitLines(rest);
    }
  }

  /** Character `ch` stands at line p.0, column p.1. */
  predicate At(lines: seq<string>, p: (int, int), ch: char)
  {
    0 <= p.0 < |lines| && 0 <= p.1 < |lines[p.0]| && lines[p.0][p.1] == ch
  }

  lemma {:induction false} NoneLeft(lines: seq<string>, ch: char)
    requires CountAll(lines, ch) == 0
    ensures forall q: (int, int) :: 0 <= q.0 < |lines| && 0 <= q.1 < |lines[q.0]| ==> lines[q.0][q.1] != ch
  {
    if lines != [] {
      CountZero(lines[0], ch);
      NoneLeft(lines[1..], ch);
      forall q: (int, int) | 0 <= q.0 < |lines| && 0 <= q.1 < |lines[q.0]| ensures lines[q.0][q.1] != ch {
        if q.0 > 0 {
          var q1 := (q.0 - 1, q.1);
          assert lines[q.0] == lines[1..][q1.0];
          assert lines[1..][q1.0][q1.1] != ch;
        }
      }
    }
  }

  /** A character counted once over all lines stands at exactly one position. */
  lemma {:induction false} FindUnique(lines: seq<string>, ch: char) returns (p: (int, int))
    requires CountAll(lines, ch) == 1
    ensures At(lines, p, ch)
    ensures forall q: (int, int) :: q != p && 0 <= q.0 < |lines| && 0 <= q.1 < |lines[q.0]| ==> lines[q.0][q.1] != ch
  {
    if Count(lines[0], ch) == 1 {
      var j := CountOne(lines[0], ch);
      p := (0, j);
      NoneLeft(lines[1..], ch);
      forall q: (int, int) | q != p && 0 <= q.0 < |lines| && 0 <= q.1 < |lines[q.0]| ensures lines[q.0][q.1] != ch {
        if q.0 > 0 {
          var q1 := (q.0 - 1, q.1);
          assert lines[q.0] == lines[1..][q1.0];
          assert lines[1..][q1.0][q1.1] != ch;
        }
      }
    } else {
      CountZero(lines[0], ch);
      var p1 := FindUnique(lines[1..], ch);
      p := (p1.0 + 1, p1.1);
      assert lines[p.0] == lines[1..][p1.0];
      forall q: (int, int) | q != p && 0 <= q.0 < |lines| && 0 <= q.1 < |lines[q.0]| ensures lines[q.0][q.1] != ch {
        if q.0 > 0 {
          assert lines[q.0] == lines[1..][q.0 - 1];
          assert (q.0 - 1, q.1) != p1;
        }
      }
    }
  }

  /** `max(len(line) for line in lines)`; Python's max refuses an empty sequence. */
  function MaxLength(lines: seq<string>): (w: nat)
    requires |lines| > 0
    ensures forall i :: 0 <= i < |lines| ==> |lines[i]| <= w
    ensures exists i :: 0 <= i < |lines| && |lines[i]| == w
  {
    if |lines| == 1 then |lines[0]|
    else
      var rest := MaxLength(lines[1..]);
      assert forall i :: 1 <= i < |lines| ==> lines[i] == lines[1..][i - 1];
      if |lines[0]| > rest then |lines[0]| else rest
  }
}
