/** The line-based patch applier `applyDiff`: every diff line whose first
    character is `+` appends the rest of the line, every line whose first
    character is `-` deletes the first line equal to the rest (if any), and
    every other diff line is ignored. */
module Patch {

  import opened Lines

  /** What one diff line asks for, read from its first character. */
  datatype Directive = Add(text: string) | Remove(text: string) | Ignore

  /** The operation of a diff line. `""[0]` is `undefined` in JavaScript,
      so an empty line is ignored like any other unknown operation. */
  function Classify(d: string): (op: Directive)
    ensures op.Add? <==> |d| > 0 && d[0] == '+'
    ensures op.Remove? <==> |d| > 0 && d[0] == '-'
    ensures !op.Ignore? ==> d == [d[0]] + op.text
  {
    if |d| > 0 && d[0] == '+' then Add(d[1..])
    else if |d| > 0 && d[0] == '-' then Remove(d[1..])
    else Ignore
  }

  /** `ls.indexOf(x)`: the lowest index holding `x`, or -1. */
  function IndexOf(ls: seq<string>, x: string): (i: int)
    ensures -1 <= i < |ls|
    ensures i == -1 <==> x !in ls
    ensures 0 <= i ==> ls[i] == x && x !in ls[..i]
  {
    if ls == [] then -1
    else if ls[0] == x then 0
    else
      var j := IndexOf(ls[1..], x);
      assert ls == [ls[0]] + ls[1..];
      if j == -1 then -1
      else
        assert ls[..j + 1] == [ls[0]] + ls[1..][..j];
        j + 1
  }

  /** The line array after one diff line. */
  function Step(ls: seq<string>, d: string): seq<string>
  {
    match Classify(d)
    case Add(t) => ls + [t]
    case Remove(t) =>
      var i := IndexOf(ls, t);
      if i == -1 then ls else ls[..i] + ls[i + 1..]
    case Ignore => ls
  }

  /** The line array after the diff lines `ds`, taken in order. */
  function ApplyLines(ls: seq<string>, ds: seq<string>): seq<string>
  {
    if ds == [] then ls
    else Step(ApplyLines(ls, ds[..|ds| - 1]), ds[|ds| - 1])
  }

  /** What `applyDiff(originalContent, diff)` returns. */
  function ApplyDiffSpec(originalContent: string, diff: string): string
  {
    Join(ApplyLines(Split(originalContent), Split(diff)))
  }

  /** `applyDiff`: splits both texts, then pushes to and splices the line
      array once per diff line, in order, and joins it again. */
  method ApplyDiff(originalContent: string, diff: string) returns (r: string)
    ensures r == ApplyDiffSpec(originalContent, diff)
  {
    var originalLines := Split(originalContent);
    var diffLines := Split(diff);
    for k := 0 to |diffLines|
      invariant originalLines == ApplyLines(Split(originalContent), diffLines[..k])
    {
      var diffLine := diffLines[k];
      assert diffLines[..k + 1][..k] == diffLines[..k];
      if |diffLine| > 0 && diffLine[0] == '+' {
        originalLines := originalLines + [diffLine[1..]];
      } else if |diffLine| > 0 && diffLine[0] == '-' {
        var index := IndexOf(originalLines, diffLine[1..]);
        if index != -1 {
          originalLines := originalLines[..index] + originalLines[index + 1..];
        }
      }
    }
    assert diffLines[..|diffLines|] == diffLines;
    r := Join(originalLines);
  }

  // ---------------------------------------------------------------------
  // Properties of one directive

  /** A `-` directive with no exact match changes nothing. */
  lemma RemoveAbsent(ls: seq<string>, t: string)
    requires t !in ls
    ensures Step(ls, "-" + t) == ls
  {
    assert Classify("-" + t) == Remove(t);
  }

  /** A `-` directive deletes the line at the lowest index holding its text. */
  lemma RemoveAtFirst(ls: seq<string>, t: string, i: nat)
    requires i < |ls| && ls[i] == t && t !in ls[..i]
    ensures Step(ls, "-" + t) == ls[..i] + ls[i + 1..]
  {
    assert Classify("-" + t) == Remove(t);
    assert ls[..i] + [ls[i]] <= ls;
    assert IndexOf(ls, t) == i;
  }

  /** A `-` directive deletes exactly the first exact match and keeps every
      other line in its order; with no match it changes nothing. */
  lemma RemoveFirstMatch(ls: seq<string>, t: string)
    ensures t !in ls ==> Step(ls, "-" + t) == ls
    ensures t in ls ==> |Step(ls, "-" + t)| == |ls| - 1
    ensures t in ls ==> multiset(Step(ls, "-" + t)) == multiset(ls) - multiset{t}
    ensures forall i :: 0 <= i < |ls| && ls[i] == t && t !in ls[..i] ==>
              Step(ls, "-" + t) == ls[..i] + ls[i + 1..]
  {
    if t !in ls {
      RemoveAbsent(ls, t);
    } else {
      var i := IndexOf(ls, t);
      RemoveAtFirst(ls, t, i);
      assert ls == ls[..i] + [ls[i]] + ls[i + 1..];
      forall j | 0 <= j < |ls| && ls[j] == t && t !in ls[..j]
        ensures Step(ls, "-" + t) == ls[..j] + ls[j + 1..]
      {
        RemoveAtFirst(ls, t, j);
      }
    }
  }

  /** A `+` directive appends everything after the `+` verbatim. */
  lemma AddAppends(ls: seq<string>, t: string)
    ensures Step(ls, "+" + t) == ls + [t]
  {
    assert Classify("+" + t) == Add(t);
  }

  // ---------------------------------------------------------------------
  // Properties of a whole diff

  /** A one-line diff is one step. */
  lemma ApplyOne(ls: seq<string>, d: string)
    ensures ApplyLines(ls, [d]) == Step(ls, d)
  {
    assert [d][..0] == [];
  }

  /** A two-line diff is two steps, the first line first. */
  lemma ApplyTwo(ls: seq<string>, d1: string, d2: string)
    ensures ApplyLines(ls, [d1, d2]) == Step(Step(ls, d1), d2)
  {
    assert [d1, d2][..1] == [d1];
    ApplyOne(ls, d1);
  }

  /** Applying two diffs one after the other is applying their concatenation:
      directives take effect strictly in diff order. */
  lemma {:induction false} ApplyConcat(ls: seq<string>, ds1: seq<string>, ds2: seq<string>)
    ensures ApplyLines(ls, ds1 + ds2) == ApplyLines(ApplyLines(ls, ds1), ds2)
  {
    if ds2 == [] {
      assert ds1 + ds2 == ds1;
    } else {
      var ds := ds1 + ds2;
      assert ds[..|ds| - 1] == ds1 + ds2[..|ds2| - 1];
      assert ds[|ds| - 1] == ds2[|ds2| - 1];
      ApplyConcat(ls, ds1, ds2[..|ds2| - 1]);
    }
  }

  /** Diff lines that are neither `+` nor `-` leave the line array as it is. */
  lemma {:induction false} IgnoredLinesChangeNothing(ls: seq<string>, ds: seq<string>)
    requires forall k :: 0 <= k < |ds| ==> Classify(ds[k]).Ignore?
    ensures ApplyLines(ls, ds) == ls
  {
    if ds != [] {
      IgnoredLinesChangeNothing(ls, ds[..|ds| - 1]);
    }
  }

  /** Number of `+` lines. */
  function AddCount(ds: seq<string>): nat
  {
    if ds == [] then 0
    else AddCount(ds[..|ds| - 1]) + (if Classify(ds[|ds| - 1]).Add? then 1 else 0)
  }

  /** Number of `-` lines. */
  function RemoveCount(ds: seq<string>): nat
  {
    if ds == [] then 0
    else RemoveCount(ds[..|ds| - 1]) + (if Classify(ds[|ds| - 1]).Remove? then 1 else 0)
  }

  /** Number of `-` lines that found a line to delete when they were applied. */
  function MatchedRemoves(ls: seq<string>, ds: seq<string>): nat
  {
    if ds == [] then 0
    else
      var before := ApplyLines(ls, ds[..|ds| - 1]);
      MatchedRemoves(ls, ds[..|ds| - 1]) +
      (match Classify(ds[|ds| - 1])
       case Remove(t) => if t in before then 1 else 0
       case _ => 0)
  }

  /** The result has as many lines as the original, plus one per `+` line,
      minus one per `-` line that found its match; at most every `-` line
      matches. */
  lemma {:induction false} LineCount(ls: seq<string>, ds: seq<string>)
    ensures MatchedRemoves(ls, ds) <= RemoveCount(ds)
    ensures |ApplyLines(ls, ds)| == |ls| + AddCount(ds) - MatchedRemoves(ls, ds)
  {
    if ds != [] {
      LineCount(ls, ds[..|ds| - 1]);
      var before := ApplyLines(ls, ds[..|ds| - 1]);
      match Classify(ds[|ds| - 1])
      case Add(t) =>
      case Remove(t) =>
        if t in before { RemoveFirstMatch(before, t); }
      case Ignore =>
    }
  }

  /** The texts of the `+` lines, in diff order. */
  function Added(ds: seq<string>): seq<string>
  {
    if ds == [] then []
    else Added(ds[..|ds| - 1]) + (match Classify(ds[|ds| - 1]) case Add(t) => [t] case _ => [])
  }

  /** A diff without `-` lines appends the texts of its `+` lines, in order,
      after the original lines. */
  lemma {:induction false} AddOnlyAppends(ls: seq<string>, ds: seq<string>)
    requires forall k :: 0 <= k < |ds| ==> !Classify(ds[k]).Remove?
    ensures ApplyLines(ls, ds) == ls + Added(ds)
  {
    if ds != [] {
      AddOnlyAppends(ls, ds[..|ds| - 1]);
    }
  }

  /** A diff without `-` lines applied twice appends its lines twice, so a
      diff with at least one `+` line is not idempotent. */
  lemma AddOnlyTwice(ls: seq<string>, ds: seq<string>)
    requires forall k :: 0 <= k < |ds| ==> !Classify(ds[k]).Remove?
    ensures ApplyLines(ApplyLines(ls, ds), ds) == ls + Added(ds) + Added(ds)
    ensures Added(ds) != [] ==> ApplyLines(ApplyLines(ls, ds), ds) != ApplyLines(ls, ds)
  {
    AddOnlyAppends(ls, ds);
    AddOnlyAppends(ls + Added(ds), ds);
  }

  /** `+t` followed by `-t`, with no `t` among the original lines, deletes
      the line just appended and so returns the original lines. */
  lemma AddThenRemoveAbsent(ls: seq<string>, t: string)
    requires t !in ls
    ensures ApplyLines(ls, ["+" + t, "-" + t]) == ls
  {
    AddThenRemoveSteps(ls, t);
    var grown := ls + [t];
    RemoveAtFirst(grown, t, |ls|);
    assert grown[..|ls|] == ls;
  }

  /** `+t` followed by `-t` deletes the first original `t`, which precedes the
      appended one, and keeps the appended line. */
  lemma AddThenRemoveFirst(ls: seq<string>, t: string, i: nat)
    requires i < |ls| && ls[i] == t && t !in ls[..i]
    ensures ApplyLines(ls, ["+" + t, "-" + t]) == ls[..i] + ls[i + 1..] + [t]
  {
    var grown := ls + [t];
    assert grown[..i] == ls[..i];
    RemoveAtFirst(grown, t, i);
    calc {
      ApplyLines(ls, ["+" + t, "-" + t]);
      { AddThenRemoveSteps(ls, t); }
      Step(grown, "-" + t);
      grown[..i] + grown[i + 1..];
      { assert grown[i + 1..] == ls[i + 1..] + [t]; }
      ls[..i] + (ls[i + 1..] + [t]);
    }
  }

  /** `+t` then `-t` is a `-t` step on the lines with `t` appended. */
  lemma AddThenRemoveSteps(ls: seq<string>, t: string)
    ensures ApplyLines(ls, ["+" + t, "-" + t]) == Step(ls + [t], "-" + t)
  {
    ApplyTwo(ls, "+" + t, "-" + t);
    AddAppends(ls, t);
  }

  // ---------------------------------------------------------------------
  // The same properties on the texts `applyDiff` receives and returns

  /** An empty diff returns the original text. */
  lemma EmptyDiff(c: string)
    ensures ApplyDiffSpec(c, "") == c
  {
    assert Split("") == [""];
    ApplyOne(Split(c), "");
    assert Classify("") == Ignore;
    JoinSplit(c);
  }

  /** The empty last line that a trailing newline adds to the diff is ignored. */
  lemma TrailingNewline(c: string, diff: string)
    ensures ApplyDiffSpec(c, diff + "\n") == ApplyDiffSpec(c, diff)
  {
    assert diff + "\n" == diff + [NL] + "";
    SplitAround(diff, "");
    assert Split("") == [""];
    var ds := Split(diff) + [""];
    assert ds[..|ds| - 1] == Split(diff);
  }

  /** `"+" + l` appends `l` verbatim as the new last line (a leading space
      included). */
  lemma AddLine(c: string, l: string)
    requires NL !in l
    ensures Split(ApplyDiffSpec(c, "+" + l)) == Split(c) + [l]
    ensures ApplyDiffSpec(c, "+" + l) == c + "\n" + l
  {
    SplitSingle("+" + l);
    ApplyOne(Split(c), "+" + l);
    AddAppends(Split(c), l);
    JoinSnoc(Split(c), l);
    JoinSplit(c);
    SplitJoin(Split(c) + [l]);
  }

  /** `"-" + l` returns the text unchanged when no line equals `l`. */
  lemma RemoveMissingLine(c: string, l: string)
    requires NL !in l
    requires l !in Split(c)
    ensures ApplyDiffSpec(c, "-" + l) == c
  {
    SplitSingle("-" + l);
    ApplyOne(Split(c), "-" + l);
    RemoveFirstMatch(Split(c), l);
    JoinSplit(c);
  }

  /** `"-" + l` deletes the first line equal to `l`. */
  lemma RemovePresentLine(c: string, l: string, i: nat)
    requires NL !in l
    requires i < |Split(c)| && Split(c)[i] == l && l !in Split(c)[..i]
    ensures ApplyDiffSpec(c, "-" + l) == Join(Split(c)[..i] + Split(c)[i + 1..])
  {
    SplitSingle("-" + l);
    ApplyOne(Split(c), "-" + l);
    RemoveFirstMatch(Split(c), l);
  }

  /** Applying the same `+`-only diff text twice adds its lines twice. */
  lemma AddOnlyDiffTwice(c: string, diff: string)
    requires forall k :: 0 <= k < |Split(diff)| ==> !Classify(Split(diff)[k]).Remove?
    ensures Split(ApplyDiffSpec(ApplyDiffSpec(c, diff), diff))
            == Split(c) + Added(Split(diff)) + Added(Split(diff))
  {
    var ls, ds := Split(c), Split(diff);
    AddOnlyAppends(ls, ds);
    AddedNoNewlines(ds);
    var once := ls + Added(ds);
    assert NoNewlines(once) by {
      forall i | 0 <= i < |once| ensures NL !in once[i] {
        if i >= |ls| { assert once[i] == Added(ds)[i - |ls|]; }
      }
    }
    SplitJoin(once);
    AddOnlyAppends(once, ds);
    var twice := once + Added(ds);
    assert NoNewlines(twice) by {
      forall i | 0 <= i < |twice| ensures NL !in twice[i] {
        if i >= |once| { assert twice[i] == Added(ds)[i - |once|]; }
      }
    }
    SplitJoin(twice);
  }

  /** Lines taken from newline-free diff lines are newline-free. */
  lemma {:induction false} AddedNoNewlines(ds: seq<string>)
    requires NoNewlines(ds)
    ensures NoNewlines(Added(ds))
  {
    if ds != [] {
      var init := ds[..|ds| - 1];
      assert NoNewlines(init) by {
        forall i | 0 <= i < |init| ensures NL !in init[i] { assert init[i] == ds[i]; }
      }
      AddedNoNewlines(init);
      match Classify(ds[|ds| - 1])
      case Add(t) =>
        var d := ds[|ds| - 1];
        assert d == [d[0]] + t;
        assert NL !in t by {
          forall j | 0 <= j < |t| ensures t[j] != NL { assert t[j] == d[j + 1]; }
        }
      case _ =>
    }
  }

  /** The concrete case: "a" patched with "+b" twice is "a\nb\nb", not "a\nb". */
  lemma NotIdempotentExample()
    ensures ApplyDiffSpec("a", "+b") == "a\nb"
    ensures ApplyDiffSpec(ApplyDiffSpec("a", "+b"), "+b") == "a\nb\nb"
  {
    AddLine("a", "b");
    AddLine("a\nb", "b");
  }
}
