/** The JavaScript string operations the reply encoder relies on, over
    Dafny strings: a global single-character `replace` and the removal of a
    trailing run of one character (`replace(/=+$/, '')`).  `Lines` and `Join`
    are not operations of the source: they are the vocabulary in which the
    line layout of the reply template is stated. */
module Text {

  /** `s.replace(/c/g, d)` for a single character `c`: every occurrence of `c`
      becomes `d` and nothing else moves. */
  function ReplaceAll(s: string, c: char, d: char): (r: string)
    ensures |r| == |s|
    ensures forall i :: 0 <= i < |s| ==> r[i] == (if s[i] == c then d else s[i])
    decreases |s|
  {
    if |s| == 0 then []
    else [if s[0] == c then d else s[0]] + ReplaceAll(s[1..], c, d)
  }

  /** `s.replace(/c+$/, '')`: the leftmost match of a run of `c` anchored at the
      end is the maximal trailing run, so the result is `s` without it. */
  function StripTrailing(s: string, c: char): (r: string)
    ensures r <= s
    ensures forall i :: |r| <= i < |s| ==> s[i] == c
    ensures |r| == 0 || r[|r| - 1] != c
    decreases |s|
  {
    if |s| > 0 && s[|s| - 1] == c then StripTrailing(s[..|s| - 1], c) else s
  }

  /** Stripping a run of `c` from a string that does not end in `c` gives that string back. */
  lemma {:induction false} StripTrailingOf(u: string, tail: string, c: char)
    requires |u| == 0 || u[|u| - 1] != c
    requires forall i :: 0 <= i < |tail| ==> tail[i] == c
    ensures StripTrailing(u + tail, c) == u
    decreases |tail|
  {
    if |tail| == 0 {
      assert u + tail == u;
    } else {
      var s := u + tail;
      assert s[|s| - 1] == tail[|tail| - 1] == c;
      assert s[..|s| - 1] == u + tail[..|tail| - 1];
      StripTrailingOf(u, tail[..|tail| - 1], c);
    }
  }

  predicate HasNoNewline(s: string) {
    '\n' !in s
  }

  /** The lines of `s`, as `s.split('\n')` gives them: always at least one. */
  function Lines(s: string): (ls: seq<string>)
    ensures |ls| >= 1
    ensures forall i :: 0 <= i < |ls| ==> HasNoNewline(ls[i])
    decreases |s|
  {
    if |s| == 0 then [""]
    else
      var rest := Lines(s[1..]);
      if s[0] == '\n' then [""] + rest
      else
        assert HasNoNewline(rest[0]);
        [[s[0]] + rest[0]] + rest[1..]
  }

  /** `ls.join('\n')`. */
  function Join(ls: seq<string>): string
    decreases |ls|
  {
    if |ls| == 0 then ""
    else if |ls| == 1 then ls[0]
    else ls[0] + "\n" + Join(ls[1..])
  }

  /** A line break after a newline-free prefix ends exactly one line. */
  lemma {:induction false} LinesCons(a: string, b: string)
    requires HasNoNewline(a)
    ensures Lines(a + "\n" + b) == [a] + Lines(b)
    decreases |a|
  {
    if |a| > 0 {
      assert (a + "\n" + b)[1..] == a[1..] + "\n" + b;
      LinesCons(a[1..], b);
      assert [a[0]] + a[1..] == a;
    } else {
      assert a + "\n" + b == "\n" + b;
      assert ("\n" + b)[1..] == b;
    }
  }

  lemma {:induction false} LinesOfLine(a: string)
    requires HasNoNewline(a)
    ensures Lines(a) == [a]
    decreases |a|
  {
    if |a| > 0 {
      LinesOfLine(a[1..]);
      assert [a[0]] + a[1..] == a;
    }
  }

  /** Splitting undoes joining, for a non-empty list of newline-free lines. */
  lemma {:induction false} LinesJoin(ls: seq<string>)
    requires |ls| >= 1
    requires forall i :: 0 <= i < |ls| ==> HasNoNewline(ls[i])
    ensures Lines(Join(ls)) == ls
    decreases |ls|
  {
    if |ls| == 1 {
      LinesOfLine(ls[0]);
    } else {
      LinesJoin(ls[1..]);
      LinesCons(ls[0], Join(ls[1..]));
      assert ls == [ls[0]] + ls[1..];
    }
  }

  /** Joining undoes splitting. */
  lemma {:induction false} JoinLines(s: string)
    ensures Join(Lines(s)) == s
    decreases |s|
  {
    if |s| > 0 {
      var rest := Lines(s[1..]);
      JoinLines(s[1..]);
      if s[0] == '\n' {
        assert Join([""] + rest) == "" + "\n" + Join(rest) by {
          assert ([""] + rest)[1..] == rest;
        }
        assert s == "\n" + s[1..];
      } else {
        var ls := [[s[0]] + rest[0]] + rest[1..];
        if |rest| == 1 {
          assert s == [s[0]] + s[1..];
        } else {
          assert ls[1..] == rest[1..];
          assert Join(rest) == rest[0] + "\n" + Join(rest[1..]);
          assert s == [s[0]] + s[1..];
        }
      }
    }
  }
}
