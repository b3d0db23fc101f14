/** Text as JavaScript sees it when it calls `split("\n")` and `join("\n")`.
    A string always splits into at least one piece ("" splits into [""]), and
    no piece contains the separator. */
module Lines {

  const NL: char := '\n'

  /** No line of `ls` contains the separator. */
  predicate NoNewlines(ls: seq<string>) {
    forall i :: 0 <= i < |ls| ==> NL !in ls[i]
  }

  /** `s.split("\n")`. */
  function Split(s: string): (r: seq<string>)
    ensures |r| >= 1
    ensures NoNewlines(r)
  {
    if s == [] then [""]
    else if s[0] == NL then [""] + Split(s[1..])
    else
      var rest := Split(s[1..]);
      [[s[0]] + rest[0]] + rest[1..]
  }

  /** `ls.join("\n")`: the empty array joins to "". */
  function Join(ls: seq<string>): string
  {
    if |ls| == 0 then ""
    else if |ls| == 1 then ls[0]
    else ls[0] + [NL] + Join(ls[1..])
  }

  /** A string without the separator is a single line. */
  lemma {:induction false} SplitSingle(s: string)
    requires NL !in s
    ensures Split(s) == [s]
  {
    if s != [] {
      SplitSingle(s[1..]);
      assert [s[0]] + s[1..] == s;
    }
  }

  /** Splitting at a separator splits the two sides independently. */
  lemma {:induction false} SplitAround(a: string, b: string)
    ensures Split(a + [NL] + b) == Split(a) + Split(b)
  {
    if a == [] {
      assert a + [NL] + b == [NL] + b;
      assert ([NL] + b)[1..] == b;
    } else {
      var s := a + [NL] + b;
      assert s[0] == a[0];
      assert s[1..] == a[1..] + [NL] + b;
      SplitAround(a[1..], b);
      if a[0] != NL {
        var ra := Split(a[1..]);
        var rs := Split(s[1..]);
        assert rs == ra + Split(b);
        assert rs[0] == ra[0];
        assert rs[1..] == ra[1..] + Split(b);
      }
    }
  }

  /** Joining after one more line puts a separator before it. */
  lemma {:induction false} JoinSnoc(ls: seq<string>, x: string)
    requires |ls| >= 1
    ensures Join(ls + [x]) == Join(ls) + [NL] + x
  {
    if |ls| == 1 {
      assert ls + [x] == [ls[0], x];
      assert [ls[0], x][1..] == [x];
    } else {
      assert (ls + [x])[1..] == ls[1..] + [x];
      JoinSnoc(ls[1..], x);
    }
  }

  /** A character glued to the first line comes out in front of the join. */
  lemma {:induction false} JoinConsFirst(c: char, r: seq<string>)
    requires |r| >= 1
    ensures Join([[c] + r[0]] + r[1..]) == [c] + Join(r)
  {
    var ls := [[c] + r[0]] + r[1..];
    if |r| > 1 {
      assert ls[1..] == r[1..];
      calc {
        Join(ls);
        ls[0] + [NL] + Join(r[1..]);
        ([c] + r[0]) + [NL] + Join(r[1..]);
        { assert ([c] + r[0]) + [NL] + Join(r[1..]) == [c] + (r[0] + [NL] + Join(r[1..])); }
        [c] + (r[0] + [NL] + Join(r[1..]));
        [c] + Join(r);
      }
    }
  }

  /** Joining the pieces of a split gives back the original text, for every
      string: the JavaScript identity `s.split("\n").join("\n") === s`. */
  lemma {:induction false} JoinSplit(s: string)
    ensures Join(Split(s)) == s
  {
    if s != [] {
      JoinSplit(s[1..]);
      if s[0] == NL {
        var r := Split(s[1..]);
        assert ([""] + r)[1..] == r;
        assert s == [NL] + s[1..];
      } else {
        JoinConsFirst(s[0], Split(s[1..]));
        assert s == [s[0]] + s[1..];
      }
    }
  }

  /** Splitting a join gives back the lines, as long as there is at least one
      and none of them contains the separator (`[].join("\n")` is "", which
      splits into [""]). */
  lemma {:induction false} SplitJoin(ls: seq<string>)
    requires |ls| >= 1 && NoNewlines(ls)
    ensures Split(Join(ls)) == ls
  {
    if |ls| == 1 {
      SplitSingle(ls[0]);
    } else {
      assert NoNewlines(ls[1..]) by {
        forall i | 0 <= i < |ls| - 1 ensures NL !in ls[1..][i] { assert ls[1..][i] == ls[i + 1]; }
      }
      SplitJoin(ls[1..]);
      SplitAround(ls[0], Join(ls[1..]));
      SplitSingle(ls[0]);
      assert [ls[0]] + ls[1..] == ls;
    }
  }
}
