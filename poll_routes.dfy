/** The persisted-poll list behind the HTTP routes: an array of polls that
    `POST /create` appends to, `GET /all` lists newest first, `GET /:id`
    searches and `DELETE /:id` splices. The generated id and the creation
    time are supplied by the caller. */
module PollRoutes {
  import opened Optional

  /** An option in the request body: `text` and `isCorrect` may be absent. */
  datatype OptionInput = OptionInput(text: Option<string>, isCorrect: Option<bool>)

  datatype StoredOption = StoredOption(text: Option<string>, isCorrect: bool, votes: nat)

  datatype StoredPoll = StoredPoll(
    id: string, question: string, options: seq<StoredOption>, totalVotes: nat, createdAt: int)

  datatype CreateOutcome = Created(poll: StoredPoll) | Invalid

  datatype DeleteOutcome = Deleted | NotFound

  /** The guard `!question || !options || options.length < 2`: a missing or
      empty question, missing options, or fewer than two options is refused,
      and every other request is accepted. */
  predicate ValidRequest(question: Option<string>, options: Option<seq<OptionInput>>): (ok: bool)
    ensures ok ==> question.Some? && options.Some? && |options.value| >= 2
    ensures question == None || question == Some("") || options == None ==> !ok
    ensures options.Some? && |options.value| < 2 ==> !ok
    ensures question.Some? && question.value != "" && options.Some? && |options.value| >= 2 ==> ok
  {
    question.Some? && question.value != "" && options.Some? && |options.value| >= 2
  }

  /** The record a successful create stores. */
  function BuildPoll(id: string, question: string, options: seq<OptionInput>, now: int): (p: StoredPoll)
    ensures p.id == id && p.question == question && p.createdAt == now && p.totalVotes == 0
    ensures |p.options| == |options|
    ensures forall j :: 0 <= j < |options| ==>
      && p.options[j].text == options[j].text
      && p.options[j].votes == 0
      && (p.options[j].isCorrect <==> options[j].isCorrect == Some(true))
  {
    StoredPoll(id, question,
      seq(|options|, j requires 0 <= j < |options| =>
        StoredOption(options[j].text, options[j].isCorrect == Some(true), 0)),
      0, now)
  }

  /** `slice().reverse()`: a reversed copy. */
  function Reverse<T>(s: seq<T>): (r: seq<T>)
    ensures |r| == |s|
    ensures forall j :: 0 <= j < |s| ==> r[j] == s[|s| - 1 - j]
  {
    if s == [] then [] else [s[|s| - 1]] + Reverse(s[..|s| - 1])
  }

  /** Reversing loses and adds nothing: the listing is a permutation. */
  lemma {:induction false} ReversePermutes<T>(s: seq<T>)
    ensures multiset(Reverse(s)) == multiset(s)
  {
    if s != [] {
      var init := s[..|s| - 1];
      ReversePermutes(init);
      calc {
        multiset(Reverse(s));
        multiset([s[|s| - 1]] + Reverse(init));
        multiset{s[|s| - 1]} + multiset(init);
        { assert s == init + [s[|s| - 1]]; }
        multiset(s);
      }
    }
  }

  /** Reversing twice gives the list back. */
  lemma ReverseInvolutive<T>(s: seq<T>)
    ensures Reverse(Reverse(s)) == s
  {
  }

  /** The poll created last is listed first, followed by the older list,
      newest first. */
  lemma NewestFirst(polls: seq<StoredPoll>, p: StoredPoll)
    ensures Reverse(polls + [p]) == [p] + Reverse(polls)
  {
    var r := Reverse(polls + [p]);
    assert r[1..] == Reverse(polls);
  }

  /** `findIndex(p => p.id === id)`: the first position holding `id`, or -1. */
  function FindIndex(polls: seq<StoredPoll>, id: string): (r: int)
    ensures -1 <= r < |polls|
    ensures r == -1 <==> forall j :: 0 <= j < |polls| ==> polls[j].id != id
    ensures r >= 0 ==> polls[r].id == id && forall j :: 0 <= j < r ==> polls[j].id != id
  {
    if polls == [] then -1
    else if polls[0].id == id then 0
    else
      var k := FindIndex(polls[1..], id);
      if k == -1 then -1 else k + 1
  }

  /** `find(p => p.id === id)`: the first poll holding `id`, if any. */
  function Find(polls: seq<StoredPoll>, id: string): (r: Option<StoredPoll>)
    ensures r.None? <==> forall j :: 0 <= j < |polls| ==> polls[j].id != id
    ensures r.Some? ==> r.value.id == id && r.value in polls
  {
    if polls == [] then None
    else if polls[0].id == id then Some(polls[0])
    else Find(polls[1..], id)
  }

  /** `find` returns the element at the position `findIndex` reports. */
  lemma {:induction false} FindAtFindIndex(polls: seq<StoredPoll>, id: string)
    ensures Find(polls, id) == if FindIndex(polls, id) == -1 then None else Some(polls[FindIndex(polls, id)])
  {
    if polls != [] && polls[0].id != id {
      FindAtFindIndex(polls[1..], id);
    }
  }

  /** `splice(index, 1)`: the element at `index` goes, the rest keep their
      order. */
  function RemoveAt(polls: seq<StoredPoll>, index: nat): (r: seq<StoredPoll>)
    requires index < |polls|
    ensures |r| == |polls| - 1
    ensures forall j :: 0 <= j < index ==> r[j] == polls[j]
    ensures forall j :: index <= j < |r| ==> r[j] == polls[j + 1]
    ensures multiset(r) + multiset{polls[index]} == multiset(polls)
  {
    assert polls == polls[..index] + [polls[index]] + polls[index + 1..];
    polls[..index] + polls[index + 1..]
  }

  /** A prefix without `id` does not affect what `find` returns. */
  lemma {:induction false} FindSkipsPrefix(a: seq<StoredPoll>, b: seq<StoredPoll>, id: string)
    requires forall j :: 0 <= j < |a| ==> a[j].id != id
    ensures Find(a + b, id) == Find(b, id)
  {
    if a != [] {
      assert (a + b)[1..] == a[1..] + b;
      FindSkipsPrefix(a[1..], b, id);
    } else {
      assert a + b == b;
    }
  }

  /** After deleting `id`, looking it up finds the next poll with that id,
      if there is one. */
  lemma DeleteThenFind(polls: seq<StoredPoll>, id: string)
    requires FindIndex(polls, id) != -1
    ensures Find(RemoveAt(polls, FindIndex(polls, id)), id) == Find(polls[FindIndex(polls, id) + 1..], id)
  {
    var k := FindIndex(polls, id);
    assert RemoveAt(polls, k) == polls[..k] + polls[k + 1..];
    FindSkipsPrefix(polls[..k], polls[k + 1..], id);
  }

  /** Ids are pairwise different. */
  ghost predicate DistinctIds(polls: seq<StoredPoll>)
  {
    forall i, j :: 0 <= i < j < |polls| ==> polls[i].id != polls[j].id
  }

  /** With distinct ids, a deleted poll can no longer be found. */
  lemma DeleteUniqueThenGone(polls: seq<StoredPoll>, id: string)
    requires DistinctIds(polls) && FindIndex(polls, id) != -1
    ensures Find(RemoveAt(polls, FindIndex(polls, id)), id) == None
  {
    DeleteThenFind(polls, id);
  }

  class PollList {
    /** `polls`, oldest first. */
    var polls: seq<StoredPoll>

    constructor ()
      ensures polls == []
    {
      polls := [];
    }

    /** `POST /create`; `id` and `now` stand for `uuidv4()` and `new Date()`. */
    method Create(question: Option<string>, options: Option<seq<OptionInput>>, id: string, now: int)
      returns (r: CreateOutcome)
      modifies this
      ensures r.Invalid? <==> !ValidRequest(question, options)
      ensures r.Invalid? ==> polls == old(polls)
      ensures r.Created? ==>
        && r.poll == BuildPoll(id, question.value, options.value, now)
        && polls == old(polls) + [r.poll]
    {
      if !ValidRequest(question, options) {
        return Invalid;
      }
      var newPoll := BuildPoll(id, question.value, options.value, now);
      polls := polls + [newPoll];
      r := Created(newPoll);
    }

    /** `GET /all`: newest first, the list itself untouched. */
    method ListAll() returns (r: seq<StoredPoll>)
      ensures r == Reverse(polls)
      ensures multiset(r) == multiset(polls)
    {
      r := Reverse(polls);
      ReversePermutes(polls);
    }

    /** `GET /:id`: the first poll with that id, or not found. */
    method GetById(id: string) returns (r: Option<StoredPoll>)
      ensures r == Find(polls, id)
      ensures r.Some? ==> r.value == polls[FindIndex(polls, id)]
    {
      r := Find(polls, id);
      FindAtFindIndex(polls, id);
    }

    /** `DELETE /:id`: removes the first poll with that id, or reports not
        found and changes nothing. */
    method DeleteById(id: string) returns (r: DeleteOutcome)
      modifies this
      ensures r == NotFound <==> forall j :: 0 <= j < |old(polls)| ==> old(polls)[j].id != id
      ensures r == NotFound ==> polls == old(polls)
      ensures r == Deleted ==> polls == RemoveAt(old(polls), FindIndex(old(polls), id))
    {
      var index := FindIndex(polls, id);
      if index == -1 {
        return NotFound;
      }
      polls := RemoveAt(polls, index);
      r := Deleted;
    }
  }
}
