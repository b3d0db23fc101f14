/** The "files already generated" part of the prompt that `generateCode`
    sends: one `filepath: summary` line per known file. */
module Prompt {

  import opened Lines

  /** What the prompt is told about a file generated earlier. */
  datatype BaseContext = BaseContext(filepath: string, summary: string)

  /** The line for one file. */
  function ContextLine(c: BaseContext): string
  {
    c.filepath + ": " + c.summary
  }

  /** The listing text (`map(...).join("\n")`): empty exactly when no file
      is known, since every line holds at least the ": " separator. */
  function ContextListing(cs: seq<BaseContext>): (r: string)
    ensures r == "" <==> cs == []
  {
    var ls := seq(|cs|, i requires 0 <= i < |cs| => ContextLine(cs[i]));
    JoinLongerThanFirst(ls);
    Join(ls)
  }

  /** A join is at least as long as its first line. */
  lemma JoinLongerThanFirst(ls: seq<string>)
    ensures |ls| >= 1 ==> |Join(ls)| >= |ls[0]|
  {
  }

  /** A file whose path and summary have no line break gives one line. */
  lemma {:induction false} ContextLineNoNewline(c: BaseContext)
    requires NL !in c.filepath && NL !in c.summary
    ensures NL !in ContextLine(c)
  {
    var l := ContextLine(c);
    forall j | 0 <= j < |l| ensures l[j] != NL {
      if j < |c.filepath| {
        assert l[j] == c.filepath[j];
      } else if j >= |c.filepath| + 2 {
        assert l[j] == c.summary[j - |c.filepath| - 2];
      }
    }
  }

  /** Reading the listing back line by line recovers, for each known file in
      order, its `filepath: summary` line, when no path or summary contains a
      line break. */
  lemma ListingLines(cs: seq<BaseContext>)
    requires |cs| >= 1
    requires forall i :: 0 <= i < |cs| ==> NL !in cs[i].filepath && NL !in cs[i].summary
    ensures |Split(ContextListing(cs))| == |cs|
    ensures forall i :: 0 <= i < |cs| ==>
              Split(ContextListing(cs))[i] == cs[i].filepath + ": " + cs[i].summary
  {
    var ls := seq(|cs|, i requires 0 <= i < |cs| => ContextLine(cs[i]));
    assert ContextListing(cs) == Join(ls);
    forall i | 0 <= i < |ls| ensures NL !in ls[i] {
      ContextLineNoNewline(cs[i]);
    }
    SplitJoin(ls);
  }
}
