/** The values the live poll engine stores and the arithmetic of a vote:
    option tallies, the poll total and the rounded percentages that are
    recomputed after every accepted answer. */
module PollTally {
  import opened Optional

  /** The properties a client sent with an option (its text, whether it is
      correct, ...). The engine copies them with an object spread and never
      looks at them. The tally and the percentage are kept in fields of their
      own, so a key `votes` or `percent` in this map is not the one the
      engine reads or writes. */
  type Fields = map<string, string>

  /** An option as the presenter sends it in `create-poll`. A `percent` the
      client happens to send survives the spread until the first vote. */
  datatype OptionSpec = OptionSpec(fields: Fields, percent: Option<int>)

  /** An option as the engine stores it. */
  datatype PollOption = PollOption(fields: Fields, votes: nat, percent: Option<int>)

  /** A live poll. */
  datatype Poll = Poll(question: string, options: seq<PollOption>, totalVotes: nat, isActive: bool)

  /** The number of votes cast over all options. */
  function SumVotes(options: seq<PollOption>): nat
  {
    if options == [] then 0 else options[0].votes + SumVotes(options[1..])
  }

  /** The poll's total agrees with its options' tallies. */
  ghost predicate TallyConsistent(p: Poll)
  {
    p.totalVotes == SumVotes(p.options)
  }

  /** `Math.round(votes / total * 100)` when the total is positive, else 0.
      On non-negative arguments `Math.round` rounds halves upward, so the
      result is the integer nearest to 100 * votes / total, ties going up. */
  function Percent(votes: nat, total: nat): (r: nat)
    ensures total == 0 ==> r == 0
    ensures total > 0 ==> 2 * total * r <= 200 * votes + total < 2 * total * r + 2 * total
    ensures votes <= total ==> r <= 100
  {
    if total > 0 then
      var r := (200 * votes + total) / (2 * total);
      RoundedShareBounds(votes, total, r);
      r
    else 0
  }

  /** The quotient behind `Percent` is the nearest integer and at most 100. */
  lemma RoundedShareBounds(votes: nat, total: nat, r: nat)
    requires total > 0 && r == (200 * votes + total) / (2 * total)
    ensures 2 * total * r <= 200 * votes + total < 2 * total * r + 2 * total
    ensures votes <= total ==> r <= 100
  {
  }

  /** Every option's stored percentage is the rounded share of the total. */
  ghost predicate PercentsCurrent(p: Poll)
  {
    forall j :: 0 <= j < |p.options| ==>
      p.options[j].percent == Some(Percent(p.options[j].votes, p.totalVotes))
  }

  /** The recomputation `options.map(opt => ({ ...opt, percent: ... }))`. */
  function Recompute(options: seq<PollOption>, total: nat): (r: seq<PollOption>)
    ensures |r| == |options|
    ensures forall j :: 0 <= j < |options| ==>
      && r[j].fields == options[j].fields
      && r[j].votes == options[j].votes
      && r[j].percent == Some(Percent(options[j].votes, total))
  {
    seq(|options|, j requires 0 <= j < |options| =>
      options[j].(percent := Some(Percent(options[j].votes, total))))
  }

  /** The poll `create-poll` stores: every option copied with zero votes. */
  function NewPoll(question: string, specs: seq<OptionSpec>): (p: Poll)
    ensures p.isActive && p.question == question && p.totalVotes == 0
    ensures |p.options| == |specs|
    ensures forall j :: 0 <= j < |specs| ==>
      p.options[j] == PollOption(specs[j].fields, 0, specs[j].percent)
    ensures TallyConsistent(p)
  {
    var options := seq(|specs|, j requires 0 <= j < |specs| =>
      PollOption(specs[j].fields, 0, specs[j].percent));
    ZeroVotesSumToZero(options);
    Poll(question, options, 0, true)
  }

  /** One accepted answer for option `i`: that option's tally and the total
      go up by one, then every percentage is recomputed. */
  function Tally(p: Poll, i: nat): (r: Poll)
    requires i < |p.options|
    ensures r.question == p.question && r.isActive == p.isActive
    ensures r.totalVotes == p.totalVotes + 1
    ensures |r.options| == |p.options|
    ensures forall j :: 0 <= j < |p.options| ==>
      r.options[j].fields == p.options[j].fields &&
      r.options[j].votes == p.options[j].votes + (if j == i then 1 else 0)
    ensures TallyConsistent(p) ==> TallyConsistent(r)
    ensures PercentsCurrent(r)
  {
    var bumped := p.options[i := p.options[i].(votes := p.options[i].votes + 1)];
    var total := p.totalVotes + 1;
    var options := Recompute(bumped, total);
    SumVotesBump(p.options, i);
    SameVotesSameSum(bumped, options);
    Poll(p.question, options, total, p.isActive)
  }

  lemma {:induction false} ZeroVotesSumToZero(options: seq<PollOption>)
    requires forall j :: 0 <= j < |options| ==> options[j].votes == 0
    ensures SumVotes(options) == 0
  {
    if options != [] {
      ZeroVotesSumToZero(options[1..]);
    }
  }

  /** Two option lists with the same tallies position by position have the
      same sum; in particular recomputing percentages keeps the sum. */
  lemma {:induction false} SameVotesSameSum(a: seq<PollOption>, b: seq<PollOption>)
    requires |a| == |b|
    requires forall j :: 0 <= j < |a| ==> a[j].votes == b[j].votes
    ensures SumVotes(a) == SumVotes(b)
  {
    if a != [] {
      SameVotesSameSum(a[1..], b[1..]);
    }
  }

  /** Adding one vote to one option adds one to the sum. */
  lemma {:induction false} SumVotesBump(options: seq<PollOption>, i: nat)
    requires i < |options|
    ensures SumVotes(options[i := options[i].(votes := options[i].votes + 1)]) == SumVotes(options) + 1
  {
    var bumped := options[i := options[i].(votes := options[i].votes + 1)];
    if i == 0 {
      assert bumped[1..] == options[1..];
    } else {
      assert bumped[1..] == options[1..][i - 1 := options[i].(votes := options[i].votes + 1)];
      SumVotesBump(options[1..], i - 1);
    }
  }

  /** No option holds more votes than all options together. */
  lemma {:induction false} VotesAtMostSum(options: seq<PollOption>, j: nat)
    requires j < |options|
    ensures options[j].votes <= SumVotes(options)
  {
    if j > 0 {
      VotesAtMostSum(options[1..], j - 1);
    }
  }

  /** In a consistent poll whose percentages are current, each percentage
      lies between 0 and 100, and it is 0 for every option when nobody has
      voted. */
  lemma PercentsInRange(p: Poll)
    requires TallyConsistent(p) && PercentsCurrent(p)
    ensures forall j :: 0 <= j < |p.options| ==>
      p.options[j].percent.Some? && 0 <= p.options[j].percent.value <= 100
    ensures p.totalVotes == 0 ==> forall j :: 0 <= j < |p.options| ==> p.options[j].percent == Some(0)
  {
    forall j | 0 <= j < |p.options|
      ensures p.options[j].percent.Some? && 0 <= p.options[j].percent.value <= 100
    {
      VotesAtMostSum(p.options, j);
    }
  }

  /** Two options, one vote each: both show 50 percent of a total of 2. */
  lemma TwoVotesSplitEvenly(question: string, a: OptionSpec, b: OptionSpec)
    ensures var p := Tally(Tally(NewPoll(question, [a, b]), 0), 1);
      p.totalVotes == 2 &&
      p.options[0].votes == 1 && p.options[0].percent == Some(50) &&
      p.options[1].votes == 1 && p.options[1].percent == Some(50)
  {
  }

  /** Percentages are rounded one by one and need not add up to 100:
      three options with one vote each show 33 percent apiece. */
  lemma PercentsNeedNotSumToHundred()
    ensures Percent(1, 3) == 33 && 3 * Percent(1, 3) == 99
    ensures Percent(1, 6) == 17 && Percent(5, 6) == 83
  {
  }
}
