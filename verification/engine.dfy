/**
 The voting engine: creating a poll from the create command's tokens, casting
 a vote, ending and deleting a poll, and the results report, each as a pure
 function from the store to an outcome and the next store.
 */
module Engine {
  import opened Maybe
  import opened Text
  import opened Choices
  import opened Arguments
  import opened Polls
  import opened Ranking

  datatype CreateOutcome =
    | NoArguments
    | MissingQuestion
    | MissingChoices
    | TooFewChoices
    | IdTaken
    | Created(id: PollId)

  /** The create command's arguments, once checked: a question and at least two choices. */
  datatype Request = Rejected(why: CreateOutcome) | Accepted(question: string, choices: seq<string>)

  /** Python's truthiness of `parsed.get(key)`: present and not the empty string. */
  predicate Given(parsed: map<string, string>, key: string) {
    key in parsed && parsed[key] != ""
  }

  /**
   The checks of the create command, in the source's order: no tokens, no
   question, no choices, fewer than two choices after splitting.
   */
  function Validate(args: seq<string>): (r: Request)
    ensures args == [] ==> r == Rejected(NoArguments)
    ensures args != [] && !Given(ParseArguments(args), "q") ==> r == Rejected(MissingQuestion)
    ensures args != [] && Given(ParseArguments(args), "q") && !Given(ParseArguments(args), "c")
            ==> r == Rejected(MissingChoices)
    ensures r.Accepted? <==>
              args != [] && Given(ParseArguments(args), "q") && Given(ParseArguments(args), "c")
              && |SplitChoices(ParseArguments(args)["c"])| >= 2
    ensures r.Accepted? ==> r.question == ParseArguments(args)["q"] && r.question != ""
    ensures r.Accepted? ==> r.choices == SplitChoices(ParseArguments(args)["c"]) && |r.choices| >= 2
    ensures args != [] && Given(ParseArguments(args), "q") && Given(ParseArguments(args), "c")
            && |SplitChoices(ParseArguments(args)["c"])| < 2
            ==> r == Rejected(TooFewChoices)
    ensures r.Rejected? ==> r.why in {NoArguments, MissingQuestion, MissingChoices, TooFewChoices}
  {
    if args == [] then Rejected(NoArguments)
    else
      var parsed := ParseArguments(args);
      if !Given(parsed, "q") then Rejected(MissingQuestion)
      else if !Given(parsed, "c") then Rejected(MissingChoices)
      else
        var choices := SplitChoices(parsed["c"]);
        if |choices| < 2 then Rejected(TooFewChoices) else Accepted(parsed["q"], choices)
  }

  /** The poll a valid create request stores: active, by the caller, options numbered from 1 with no votes. */
  function NewPoll(user: UserId, question: string, choices: seq<string>, channel: ChannelId): (p: Poll)
    ensures p.creator == user && p.question == question && p.isActive && p.channel == channel
    ensures |p.options| == |choices| && DistinctKeys(p.options) && Total(p.options) == 0
    ensures forall i :: 0 <= i < |choices| ==> p.options[i] == OptionEntry(Decimal(i + 1), choices[i], 0)
  {
    Poll(user, question, NumberedOptions(choices), true, channel)
  }

  /**
   `handle_create`: the new poll is stored under `freshId` only when the
   arguments are valid and the id is free (the store refuses a duplicate key);
   otherwise nothing is stored. No receipt is created either way.
   */
  function Create(s: Store, args: seq<string>, channel: ChannelId, user: UserId, freshId: PollId): (r: Effect<CreateOutcome>)
    ensures r.store.receipts == s.receipts
    ensures !r.outcome.Created? ==> r.store == s
    ensures Validate(args).Rejected? ==> r.outcome == Validate(args).why
    ensures Validate(args).Accepted? && freshId in s.polls ==> r.outcome == IdTaken
    ensures r.outcome.Created? <==> Validate(args).Accepted? && freshId !in s.polls
    ensures r.outcome.Created? ==>
              && r.outcome.id == freshId
              && r.store.polls == s.polls[freshId := NewPoll(user, Validate(args).question, Validate(args).choices, channel)]
  {
    match Validate(args)
    case Rejected(why) => Effect(why, s)
    case Accepted(question, choices) =>
      if freshId in s.polls then Effect(IdTaken, s)
      else Effect(Created(freshId), s.(polls := s.polls[freshId := NewPoll(user, question, choices, channel)]))
  }

  datatype VoteOutcome = Counted | NoSuchPoll | Inactive | InvalidOption | AlreadyVoted

  /**
   `add_vote`: the checks in order (poll exists, is active, the option is one
   of its keys, the user has no receipt yet); only when all pass is the
   option's count raised by one and the receipt added.
   */
  function AddVote(s: Store, id: PollId, option: string, user: UserId): (r: Effect<VoteOutcome>)
    ensures r.outcome == NoSuchPoll <==> id !in s.polls
    ensures r.outcome == Inactive <==> id in s.polls && !s.polls[id].isActive
    ensures r.outcome == InvalidOption <==>
              id in s.polls && s.polls[id].isActive && FindKey(s.polls[id].options, option).None?
    ensures r.outcome == AlreadyVoted <==>
              id in s.polls && s.polls[id].isActive && FindKey(s.polls[id].options, option).Some?
              && (id, user) in s.receipts
    ensures r.outcome != Counted ==> r.store == s
    ensures r.outcome == Counted ==>
              && id in s.polls && (id, user) !in s.receipts
              && FindKey(s.polls[id].options, option).Some?
              && r.store.receipts == s.receipts + {(id, user)}
              && r.store.polls == s.polls[id := s.polls[id].(options := Bump(s.polls[id].options, FindKey(s.polls[id].options, option).value))]
  {
    if id !in s.polls then Effect(NoSuchPoll, s)
    else
      var p := s.polls[id];
      if !p.isActive then Effect(Inactive, s)
      else match FindKey(p.options, option)
        case None => Effect(InvalidOption, s)
        case Some(j) =>
          if (id, user) in s.receipts then Effect(AlreadyVoted, s)
          else Effect(Counted, Store(s.polls[id := p.(options := Bump(p.options, j))], s.receipts + {(id, user)}))
  }

  datatype AdminOutcome = Missing | NotCreator | Done

  /** `handle_end`: only the creator of an existing poll can close it; closing clears the active flag only. */
  function End(s: Store, id: PollId, user: UserId): (r: Effect<AdminOutcome>)
    ensures r.outcome == Missing <==> id !in s.polls
    ensures r.outcome == NotCreator <==> id in s.polls && s.polls[id].creator != user
    ensures r.outcome != Done ==> r.store == s
    ensures r.outcome == Done ==> r.store == Store(s.polls[id := s.polls[id].(isActive := false)], s.receipts)
  {
    if id !in s.polls then Effect(Missing, s)
    else if s.polls[id].creator != user then Effect(NotCreator, s)
    else Effect(Done, s.(polls := s.polls[id := s.polls[id].(isActive := false)]))
  }

  /**
   `handle_delete` as written: only the creator of an existing poll can delete
   it; the poll record goes and so does the requester's own receipt, while the
   receipts of every other voter in that poll stay.
   */
  function Delete(s: Store, id: PollId, user: UserId): (r: Effect<AdminOutcome>)
    ensures r.outcome == Missing <==> id !in s.polls
    ensures r.outcome == NotCreator <==> id in s.polls && s.polls[id].creator != user
    ensures r.outcome != Done ==> r.store == s
    ensures r.outcome == Done ==> r.store == Store(s.polls - {id}, s.receipts - {(id, user)})
  {
    if id !in s.polls then Effect(Missing, s)
    else if s.polls[id].creator != user then Effect(NotCreator, s)
    else Effect(Done, Store(s.polls - {id}, s.receipts - {(id, user)}))
  }

  /** The receipts of poll `id`. */
  function ReceiptsOf(receipts: set<(PollId, UserId)>, id: PollId): (r: set<(PollId, UserId)>)
    ensures forall x :: x in r <==> x in receipts && x.0 == id
  {
    set x | x in receipts && x.0 == id
  }

  /**
   Deletion as the reply message promises it ("all data cleared"): the poll
   record and every receipt of the poll go.
   */
  function DeleteWithReceipts(s: Store, id: PollId, user: UserId): (r: Effect<AdminOutcome>)
    ensures r.outcome == Missing <==> id !in s.polls
    ensures r.outcome == NotCreator <==> id in s.polls && s.polls[id].creator != user
    ensures r.outcome != Done ==> r.store == s
    ensures r.outcome == Done ==> r.store == Store(s.polls - {id}, s.receipts - ReceiptsOf(s.receipts, id))
    ensures r.outcome == Done ==> VotersOf(r.store.receipts, id) == {}
  {
    if id !in s.polls then Effect(Missing, s)
    else if s.polls[id].creator != user then Effect(NotCreator, s)
    else Effect(Done, Store(s.polls - {id}, s.receipts - ReceiptsOf(s.receipts, id)))
  }

  /** What a results report carries: the question, the ranked options, the vote total and the status. */
  datatype Report = Report(question: string, ranked: seq<OptionEntry>, total: nat, isActive: bool)

  lemma RankStableAll(opts: seq<OptionEntry>)
    ensures forall c: nat :: WithCount(Rank(opts), c) == WithCount(opts, c)
  {
    forall c: nat ensures WithCount(Rank(opts), c) == WithCount(opts, c) {
      RankStable(opts, c);
    }
  }

  /**
   `handle_results`: nothing for an unknown poll; otherwise the total of the
   counts and the options by non-increasing count, equal counts in key order.
   */
  function Results(s: Store, id: PollId): (r: Option<Report>)
    ensures r.None? <==> id !in s.polls
    ensures r.Some? ==>
              && r.value.question == s.polls[id].question
              && r.value.isActive == s.polls[id].isActive
              && r.value.total == Total(s.polls[id].options)
              && NonIncreasing(r.value.ranked)
              && multiset(r.value.ranked) == multiset(s.polls[id].options)
              && forall c: nat :: WithCount(r.value.ranked, c) == WithCount(s.polls[id].options, c)
  {
    if id !in s.polls then None
    else
      var p := s.polls[id];
      RankStableAll(p.options);
      Some(Report(p.question, Rank(p.options), Total(p.options), p.isActive))
  }

  // ---------------------------------------------------------------------------
  // Store invariants

  lemma CreatePreservesInv(s: Store, args: seq<string>, channel: ChannelId, user: UserId, freshId: PollId)
    requires Inv(s)
    ensures Inv(Create(s, args, channel, user, freshId).store)
  {
    var r := Create(s, args, channel, user, freshId);
    if r.outcome.Created? {
      NoVotersForFreshId(s, freshId);
      assert VotersOf(r.store.receipts, freshId) == {};
    }
  }

  lemma AddVotePreservesInv(s: Store, id: PollId, option: string, user: UserId)
    requires Inv(s)
    ensures Inv(AddVote(s, id, option, user).store)
  {
    var r := AddVote(s, id, option, user);
    if r.outcome == Counted {
      var s' := r.store;
      forall other | other in s'.polls
        ensures Total(s'.polls[other].options) == |VotersOf(s'.receipts, other)|
      {
        VotersAfterInsert(s.receipts, id, user, other);
      }
    }
  }

  lemma EndPreservesInv(s: Store, id: PollId, user: UserId)
    requires Inv(s)
    ensures Inv(End(s, id, user).store)
  {
  }

  /** The corrected deletion keeps the invariant: no receipt outlives its poll. */
  lemma DeleteWithReceiptsPreservesInv(s: Store, id: PollId, user: UserId)
    requires Inv(s)
    ensures Inv(DeleteWithReceipts(s, id, user).store)
  {
    var r := DeleteWithReceipts(s, id, user);
    if r.outcome == Done {
      forall other | other in r.store.polls
        ensures Total(r.store.polls[other].options) == |VotersOf(r.store.receipts, other)|
      {
        VotersAfterRemove(s.receipts, ReceiptsOf(s.receipts, id), id, other);
      }
    }
  }

  lemma CreateKeepsSound(s: Store, args: seq<string>, channel: ChannelId, user: UserId, freshId: PollId)
    requires Sound(s)
    ensures Sound(Create(s, args, channel, user, freshId).store)
  {
  }

  lemma AddVoteKeepsSound(s: Store, id: PollId, option: string, user: UserId)
    requires Sound(s)
    ensures Sound(AddVote(s, id, option, user).store)
  {
    var r := AddVote(s, id, option, user);
    if r.outcome == Counted {
      var s' := r.store;
      forall other | other in s'.polls
        ensures Total(s'.polls[other].options) <= |VotersOf(s'.receipts, other)|
      {
        VotersAfterInsert(s.receipts, id, user, other);
      }
    }
  }

  lemma EndKeepsSound(s: Store, id: PollId, user: UserId)
    requires Sound(s)
    ensures Sound(End(s, id, user).store)
  {
  }

  /** Both deletions keep the weaker invariant: the receipts they remove belong to the poll they remove. */
  lemma DeleteKeepsSound(s: Store, id: PollId, user: UserId)
    requires Sound(s)
    ensures Sound(Delete(s, id, user).store)
    ensures Sound(DeleteWithReceipts(s, id, user).store)
  {
    var r := Delete(s, id, user);
    if r.outcome == Done {
      forall other | other in r.store.polls
        ensures Total(r.store.polls[other].options) <= |VotersOf(r.store.receipts, other)|
      {
        VotersAfterRemove(s.receipts, {(id, user)}, id, other);
      }
    }
    var c := DeleteWithReceipts(s, id, user);
    if c.outcome == Done {
      forall other | other in c.store.polls
        ensures Total(c.store.polls[other].options) <= |VotersOf(c.store.receipts, other)|
      {
        VotersAfterRemove(s.receipts, ReceiptsOf(s.receipts, id), id, other);
      }
    }
  }

  /** Which deletion a delete command runs: the one of bot/main.py, or the corrected one. */
  datatype Deletion = AsWritten | Corrected

  function Remove(del: Deletion, s: Store, id: PollId, user: UserId): Effect<AdminOutcome> {
    match del
    case AsWritten => Delete(s, id, user)
    case Corrected => DeleteWithReceipts(s, id, user)
  }

  /**
   The store invariant the deletion in use keeps: receipts behind every
   counted vote and distinct keys always, and with the corrected deletion the
   full invariant.
   */
  predicate Kept(del: Deletion, s: Store) {
    Sound(s) && (del == Corrected ==> Inv(s))
  }

  /**
   Deleting as written keeps the vote totals of the remaining polls equal to
   their receipts, but the receipts of the deleted poll other than the
   requester's own stay in the store.
   */
  lemma DeleteKeepsConserved(s: Store, id: PollId, user: UserId)
    requires Inv(s)
    ensures Conserved(Delete(s, id, user).store) && KeysDistinct(Delete(s, id, user).store)
    ensures Delete(s, id, user).outcome == Done ==>
              ReceiptsOf(Delete(s, id, user).store.receipts, id) == ReceiptsOf(s.receipts, id) - {(id, user)}
  {
    var r := Delete(s, id, user);
    if r.outcome == Done {
      forall other | other in r.store.polls
        ensures Total(r.store.polls[other].options) == |VotersOf(r.store.receipts, other)|
      {
        VotersAfterRemove(s.receipts, {(id, user)}, id, other);
      }
    }
  }

  /**
   The two deletions agree on the outcome and on the polls; they differ only
   in the receipts of the deleted poll held by users other than the requester.
   */
  lemma DeleteVersions(s: Store, id: PollId, user: UserId)
    ensures DeleteWithReceipts(s, id, user).outcome == Delete(s, id, user).outcome
    ensures DeleteWithReceipts(s, id, user).store.polls == Delete(s, id, user).store.polls
    ensures Delete(s, id, user).store.receipts - DeleteWithReceipts(s, id, user).store.receipts
            == if Delete(s, id, user).outcome == Done then ReceiptsOf(s.receipts, id) - {(id, user)} else {}
  {
  }

  /**
   Deleting as written leaves the receipts of other voters behind: a poll
   "p" by "alice" with one vote from "bob" satisfies the invariant, and after
   alice deletes it bob's receipt has no poll. A new poll created under the
   same id then counts no votes but has a voter, and bob cannot vote in it.
   */
  lemma DeleteLeavesOrphans()
    ensures var p := NewPoll("alice", "Q?", ["x", "y"], "ch");
      var s0 := Store(map["p" := p], {});
      var s1 := AddVote(s0, "p", "1", "bob");
      var s2 := Delete(s1.store, "p", "alice");
      var s3 := Create(s2.store, ["-q=Q2", "-c=u,v"], "ch", "alice", "p");
      && Inv(s0) && s1.outcome == Counted && Inv(s1.store)
      && s2.outcome == Done && ("p", "bob") in s2.store.receipts && !NoOrphans(s2.store)
      && s3.outcome == Created("p") && !Conserved(s3.store)
      && AddVote(s3.store, "p", "1", "bob").outcome == AlreadyVoted
  {
    var p := NewPoll("alice", "Q?", ["x", "y"], "ch");
    assert p.options[0].key == Decimal(1) == "1";
    assert FindKey(p.options, "1") == Some(0);
    VoteThenDelete(p, "p", "bob", "1");
    var s0 := Store(map["p" := p], {});
    var s2 := Delete(AddVote(s0, "p", "1", "bob").store, "p", "alice");
    CreateExampleArgs();
    RecreateOverOrphan(s2.store, ["-q=Q2", "-c=u,v"], "p", "bob", "alice", "ch");
  }

  /** The creator deletes a poll after one vote by someone else: only the voter's receipt is left. */
  lemma VoteThenDelete(p: Poll, id: PollId, voter: UserId, key: string)
    requires p.isActive && p.creator != voter && Total(p.options) == 0 && DistinctKeys(p.options)
    requires FindKey(p.options, key).Some?
    ensures var s0 := Store(map[id := p], {});
      var s1 := AddVote(s0, id, key, voter);
      var s2 := Delete(s1.store, id, p.creator);
      && Inv(s0) && s1.outcome == Counted && Inv(s1.store)
      && s2.outcome == Done && s2.store == Store(map[], {(id, voter)})
  {
    var s0 := Store(map[id := p], {});
    assert VotersOf(s0.receipts, id) == {};
    AddVotePreservesInv(s0, id, key, voter);
    var s1 := AddVote(s0, id, key, voter);
    assert s1.store.receipts == {(id, voter)};
    assert s1.store.polls.Keys == {id};
    assert (s1.store.polls - {id}) == map[];
  }

  /** A poll created under the id of a deleted one inherits the receipt left behind. */
  lemma RecreateOverOrphan(s: Store, args: seq<string>, id: PollId, voter: UserId, creator: UserId, channel: ChannelId)
    requires s == Store(map[], {(id, voter)})
    requires Validate(args).Accepted? && |Validate(args).choices| >= 1
    ensures var s3 := Create(s, args, channel, creator, id);
      && s3.outcome == Created(id) && !Conserved(s3.store)
      && AddVote(s3.store, id, Decimal(1), voter).outcome == AlreadyVoted
  {
    var s3 := Create(s, args, channel, creator, id);
    var q := s3.store.polls[id];
    assert Total(q.options) == 0;
    assert (id, voter) in s3.store.receipts;
    assert voter in VotersOf(s3.store.receipts, id);
    assert q.options[0].key == Decimal(1);
    assert FindKey(q.options, Decimal(1)).Some?;
  }

  /** The token `-key=value` for a one-letter key and a value with no `=` or quote. */
  lemma PlainToken(k: char, v: string)
    requires 'a' <= k <= 'z' && v != [] && v[0] != '"' && '=' !in v
    ensures var tok := ['-', k, '='] + v;
      IsKeyToken(tok) && KeyOf(tok) == [k] && ValueOf(tok) == v && !StartsWithQuote(ValueOf(tok))
  {
    var tok := ['-', k, '='] + v;
    assert tok[2] == '=';
    assert EqIndex(tok) == 2;
    assert tok[1..2] == [k];
    assert tok[3..] == v;
  }

  /** Appending a plain `-k=v` token after tokens that leave no quote open stores `v` under `k`. */
  lemma AppendPlain(args: seq<string>, k: char, v: string)
    requires NoEmptyKey(args) && !Run(Start, args).inQuotes
    requires 'a' <= k <= 'z' && v != [] && v[0] != '"' && v[|v| - 1] != '"' && '=' !in v
    ensures ParseArguments(args + [['-', k, '='] + v]) == ParseArguments(args)[[k] := v]
    ensures NoEmptyKey(args + [['-', k, '='] + v]) && !Run(Start, args + [['-', k, '='] + v]).inQuotes
  {
    var tok := ['-', k, '='] + v;
    PlainToken(k, v);
    assert ParseArguments(args + [tok]) == ParseArguments(args)[[k] := v] by {
      LastKeyWins(args, tok);
      BareStripIsIdentity(v, IsQuote);
    }
    AppendPlainSettled(args, tok);
  }

  lemma AppendPlainSettled(args: seq<string>, tok: string)
    requires NoEmptyKey(args) && !Run(Start, args).inQuotes
    requires IsKeyToken(tok) && KeyOf(tok) != "" && !StartsWithQuote(ValueOf(tok))
    ensures NoEmptyKey(args + [tok]) && !Run(Start, args + [tok]).inQuotes
  {
    var a := args + [tok];
    assert a[..|a| - 1] == args;
    assert Run(Start, a) == Step(Run(Start, args), tok);
    forall i | 0 <= i < |a| && IsKeyToken(a[i]) ensures KeyOf(a[i]) != "" {
      if i < |args| {
        assert a[i] == args[i];
      } else {
        assert a[i] == tok;
      }
    }
  }

  /** A value that needs no quoting: non-empty, no `=`, no quote at either end. */
  predicate PlainValue(v: string) {
    v != [] && v[0] != '"' && v[|v| - 1] != '"' && '=' !in v
  }

  /** `-q=<question> -c=<choices>` with plain values parses to exactly those two keys. */
  lemma ParseQuestionAndChoices(q: string, c: string)
    requires PlainValue(q) && PlainValue(c)
    ensures ParseArguments(["-q=" + q, "-c=" + c]) == map["q" := q, "c" := c]
  {
    var t1, t2 := ['-', 'q', '='] + q, ['-', 'c', '='] + c;
    assert NoEmptyKey([]) && Run(Start, []) == Start;
    AppendPlain([], 'q', q);
    assert [] + [t1] == [t1];
    AppendPlain([t1], 'c', c);
    assert [t1] + [t2] == [t1, t2];
  }

  /** `-q=<question> -c=<choices>` with plain values and at least two choices is a valid request. */
  lemma ValidQuestionAndChoices(q: string, c: string)
    requires PlainValue(q) && PlainValue(c) && |SplitChoices(c)| >= 2
    ensures Validate(["-q=" + q, "-c=" + c]) == Accepted(q, SplitChoices(c))
  {
    ParseQuestionAndChoices(q, c);
  }

  /** The tokens `-q=Q2 -c=u,v` form a valid create request. */
  lemma CreateExampleArgs()
    ensures Validate(["-q=Q2", "-c=u,v"]) == Accepted("Q2", ["u", "v"])
  {
    assert "-q=" + "Q2" == "-q=Q2";
    assert "-c=" + "u,v" == "-c=u,v";
    SplitTwo();
    assert PlainValue("Q2") && PlainValue("u,v");
    ValidQuestionAndChoices("Q2", "u,v");
  }

  // ---------------------------------------------------------------------------
  // Votes

  /**
   An accepted vote raises the count of exactly the option under the chosen
   key by one; every other option, the question, the creator and the active
   flag stay, and the poll's total rises by one.
   */
  lemma CountedVoteEffect(s: Store, id: PollId, option: string, user: UserId)
    requires KeysDistinct(s)
    requires AddVote(s, id, option, user).outcome == Counted
    ensures var p, p' := s.polls[id], AddVote(s, id, option, user).store.polls[id];
      && p'.creator == p.creator && p'.question == p.question && p'.isActive == p.isActive
      && p'.channel == p.channel && |p'.options| == |p.options|
      && (forall i :: 0 <= i < |p.options| ==>
            p'.options[i].key == p.options[i].key && p'.options[i].text == p.options[i].text
            && p'.options[i].count == p.options[i].count + (if p.options[i].key == option then 1 else 0))
      && Total(p'.options) == Total(p.options) + 1
  {
    var p := s.polls[id];
    var j := FindKey(p.options, option).value;
    assert DistinctKeys(p.options);
    forall i | 0 <= i < |p.options| && i != j ensures p.options[i].key != option {
      assert p.options[i].key != p.options[j].key;
    }
  }

  /** Voting twice: the second attempt by the same user in the same poll is refused and changes nothing. */
  lemma SecondVoteRefused(s: Store, id: PollId, option: string, other: string, user: UserId)
    requires AddVote(s, id, option, user).outcome == Counted
    ensures var s1 := AddVote(s, id, option, user).store;
      && AddVote(s1, id, option, user) == Effect(AlreadyVoted, s1)
      && (AddVote(s1, id, other, user).outcome in {AlreadyVoted, InvalidOption})
      && AddVote(s1, id, other, user).store == s1
  {
    var p := s.polls[id];
    var j := FindKey(p.options, option).value;
    var s1 := AddVote(s, id, option, user).store;
    assert s1.polls[id].options == Bump(p.options, j);
    forall k | 0 <= k < |p.options| ensures s1.polls[id].options[k].key == p.options[k].key {
    }
    KeysKept(p.options, s1.polls[id].options, option);
  }

  /** Two option lists with the same keys position by position find a key at the same place. */
  lemma {:induction false} KeysKept(a: seq<OptionEntry>, b: seq<OptionEntry>, key: string)
    requires |a| == |b|
    requires forall k :: 0 <= k < |a| ==> a[k].key == b[k].key
    ensures FindKey(a, key) == FindKey(b, key)
    decreases |a|
  {
    if a != [] {
      KeysKept(a[1..], b[1..], key);
    }
  }

  // ---------------------------------------------------------------------------
  // Ending

  /** After an end, every vote in the poll is refused as inactive, whatever the option. */
  lemma EndedRefusesVotes(s: Store, id: PollId, user: UserId, option: string, voter: UserId)
    requires End(s, id, user).outcome == Done
    ensures AddVote(End(s, id, user).store, id, option, voter) == Effect(Inactive, End(s, id, user).store)
  {
  }

  /** Ending an ended poll again is accepted and changes nothing. */
  lemma EndTwice(s: Store, id: PollId, user: UserId)
    requires End(s, id, user).outcome == Done
    ensures End(End(s, id, user).store, id, user) == End(s, id, user)
  {
  }

  /** No store operation makes a closed poll active again. */
  predicate StaysClosed(s: Store, s': Store) {
    forall id :: id in s.polls && id in s'.polls && !s.polls[id].isActive ==> !s'.polls[id].isActive
  }

  /** Creating a poll reopens nothing: the one poll it adds has an id that was free. */
  lemma CreateKeepsClosed(s: Store, args: seq<string>, channel: ChannelId, user: UserId, freshId: PollId)
    ensures StaysClosed(s, Create(s, args, channel, user, freshId).store)
  {
    var r := Create(s, args, channel, user, freshId);
    if r.outcome.Created? {
      forall id | id in s.polls && id in r.store.polls && !s.polls[id].isActive
        ensures !r.store.polls[id].isActive
      {
        assert id != freshId;
      }
    }
  }

  /** A counted vote changes only the counts of an active poll. */
  lemma AddVoteKeepsClosed(s: Store, id: PollId, option: string, user: UserId)
    ensures StaysClosed(s, AddVote(s, id, option, user).store)
  {
    var r := AddVote(s, id, option, user);
    if r.outcome == Counted {
      forall j | j in s.polls && j in r.store.polls && !s.polls[j].isActive
        ensures !r.store.polls[j].isActive
      {
        assert j != id;
      }
    }
  }

  lemma EndKeepsClosed(s: Store, id: PollId, user: UserId)
    ensures StaysClosed(s, End(s, id, user).store)
  {
  }

  lemma DeleteKeepsClosed(s: Store, id: PollId, user: UserId)
    ensures StaysClosed(s, Delete(s, id, user).store)
    ensures StaysClosed(s, DeleteWithReceipts(s, id, user).store)
  {
  }
}
