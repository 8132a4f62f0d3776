/**
 The command dispatcher: a message that starts with `!vote` is split into
 whitespace tokens, the second token (lower-cased) picks the command and the
 rest are its arguments; each command checks its own argument count before
 reaching the engine.
 */
module Dispatch {
  import opened Maybe
  import opened Text
  import opened Polls
  import opened Engine

  const Prefix: string := "!vote"

  /** What a message asks for, once its tokens are read. */
  datatype Command =
    | CreateCmd(args: seq<string>)
    | VoteCmd(id: PollId, option: string)
    | ResultsCmd(id: PollId)
    | EndCmd(id: PollId)
    | DeleteCmd(id: PollId)
    | Usage(name: string)
    | Help

  /** The commands that take a fixed number of arguments, and how many. */
  function Arity(name: string): Option<nat> {
    if name == "vote" then Some(2)
    else if name in {"results", "end", "delete"} then Some(1)
    else None
  }

  /**
   The dispatch of `handle_message` on the message's tokens (the first is the
   `!vote` word itself): fewer than two tokens or an unknown command give the
   help text; a known command with the wrong number of arguments gives its
   usage line; `create` takes any arguments.
   */
  function Classify(parts: seq<string>): (c: Command)
    ensures c == Help <==> |parts| < 2 || (Lower(parts[1]) != "create" && Arity(Lower(parts[1])).None?)
    ensures c.CreateCmd? <==> |parts| >= 2 && Lower(parts[1]) == "create"
    ensures c.CreateCmd? ==> c.args == parts[2..]
    ensures c.Usage? <==>
              |parts| >= 2 && Arity(Lower(parts[1])).Some? && |parts| - 2 != Arity(Lower(parts[1])).value
    ensures c.Usage? ==> c.name == Lower(parts[1])
    ensures c.VoteCmd? ==> |parts| == 4 && Lower(parts[1]) == "vote" && c.id == parts[2] && c.option == parts[3]
    ensures (c.ResultsCmd? || c.EndCmd? || c.DeleteCmd?) ==> |parts| == 3 && c.id == parts[2]
    ensures c.ResultsCmd? ==> Lower(parts[1]) == "results"
    ensures c.EndCmd? ==> Lower(parts[1]) == "end"
    ensures c.DeleteCmd? ==> Lower(parts[1]) == "delete"
  {
    if |parts| < 2 then Help
    else
      var name, args := Lower(parts[1]), parts[2..];
      if name == "create" then CreateCmd(args)
      else if name == "vote" then
        if |args| == 2 then VoteCmd(args[0], args[1]) else Usage(name)
      else if name == "results" then
        if |args| == 1 then ResultsCmd(args[0]) else Usage(name)
      else if name == "end" then
        if |args| == 1 then EndCmd(args[0]) else Usage(name)
      else if name == "delete" then
        if |args| == 1 then DeleteCmd(args[0]) else Usage(name)
      else Help
  }

  /** A message is a command exactly when it starts with `!vote` (so `!voter ...` is one too). */
  function ParseMessage(message: string): (r: Option<Command>)
    ensures r.None? <==> !(Prefix <= message)
    ensures r.Some? ==> r.value == Classify(Words(message))
  {
    if Prefix <= message then Some(Classify(Words(message))) else None
  }

  /** The tokens after `!vote` that spell a command in its canonical form. */
  function Spelling(c: Command): seq<string> {
    match c
    case CreateCmd(args) => ["create"] + args
    case VoteCmd(id, option) => ["vote", id, option]
    case ResultsCmd(id) => ["results", id]
    case EndCmd(id) => ["end", id]
    case DeleteCmd(id) => ["delete", id]
    case Usage(name) => [name]
    case Help => []
  }

  /** The message that spells `c`: `!vote` and the command's tokens, separated by single spaces. */
  function Unparse(c: Command): string {
    JoinWith([Prefix] + Spelling(c), " ")
  }

  /** Commands that some message spells: every argument a non-empty token, usage only for a fixed-arity command. */
  predicate WellFormed(c: Command) {
    && (forall k :: 0 <= k < |Spelling(c)| ==> Spelling(c)[k] != [] && NoSpace(Spelling(c)[k]))
    && (c.Usage? ==> Arity(c.name).Some?)
  }

  lemma {:induction false} JoinStartsWith(parts: seq<string>, sep: string)
    requires |parts| >= 1
    ensures parts[0] <= JoinWith(parts, sep)
  {
    if |parts| >= 2 {
      assert JoinWith(parts, sep) == parts[0] + (sep + JoinWith(parts[1..], sep));
    }
  }

  /** The canonical message starts with `!vote` and splits into `!vote` and the command's tokens. */
  lemma UnparseWords(c: Command)
    requires WellFormed(c)
    ensures Prefix <= Unparse(c)
    ensures Words(Unparse(c)) == [Prefix] + Spelling(c)
  {
    var parts := [Prefix] + Spelling(c);
    forall k | 0 <= k < |parts| ensures parts[k] != [] && NoSpace(parts[k]) {
      if k > 0 {
        assert parts[k] == Spelling(c)[k - 1];
      }
    }
    WordsOfJoin(parts);
    JoinStartsWith(parts, " ");
  }

  /** Round trip: reading the canonical message of a well-formed command gives the command back. */
  lemma ParseUnparse(c: Command)
    requires WellFormed(c)
    ensures ParseMessage(Unparse(c)) == Some(c)
  {
    UnparseWords(c);
    ClassifySpelling(c);
  }

  /** The tokens of a well-formed command's spelling are classified as that command. */
  lemma ClassifySpelling(c: Command)
    requires c.Usage? ==> Arity(c.name).Some?
    ensures Classify([Prefix] + Spelling(c)) == c
  {
    match c
    case Help =>
    case CreateCmd(args) => ClassifyCreate(args);
    case VoteCmd(id, option) => ClassifyVote(id, option);
    case ResultsCmd(id) => ClassifyOne(c);
    case EndCmd(id) => ClassifyOne(c);
    case DeleteCmd(id) => ClassifyOne(c);
    case Usage(name) => ClassifyUsage(name);
  }

  lemma ClassifyCreate(args: seq<string>)
    ensures Classify([Prefix] + Spelling(CreateCmd(args))) == CreateCmd(args)
  {
    var parts := [Prefix] + Spelling(CreateCmd(args));
    assert parts[1] == "create" && parts[2..] == args;
    LowerWord("create");
  }

  lemma ClassifyVote(id: PollId, option: string)
    ensures Classify([Prefix] + Spelling(VoteCmd(id, option))) == VoteCmd(id, option)
  {
    var parts := [Prefix] + Spelling(VoteCmd(id, option));
    assert parts == [Prefix, "vote", id, option];
    LowerWord("vote");
  }

  lemma ClassifyOne(c: Command)
    requires c.ResultsCmd? || c.EndCmd? || c.DeleteCmd?
    ensures Classify([Prefix] + Spelling(c)) == c
  {
    var w := if c.ResultsCmd? then "results" else if c.EndCmd? then "end" else "delete";
    var parts := [Prefix] + Spelling(c);
    assert parts == [Prefix, w, c.id];
    LowerWord(w);
  }

  lemma ClassifyUsage(name: string)
    requires Arity(name).Some?
    ensures Classify([Prefix] + Spelling(Usage(name))) == Usage(name)
  {
    var parts := [Prefix] + Spelling(Usage(name));
    assert parts == [Prefix, name];
    LowerWord(name);
  }

  /** The command words are already lower case. */
  lemma LowerWord(w: string)
    requires w in {"create", "vote", "results", "end", "delete"}
    ensures Lower(w) == w
  {
    LowerOfLower(w);
  }

  /** A command word is recognised whatever its letter case. */
  lemma ClassifyIgnoresCase(parts: seq<string>, word: string)
    requires |parts| >= 2 && Lower(word) == Lower(parts[1])
    ensures Classify(parts[1 := word]) == Classify(parts)
  {
    assert parts[1 := word][2..] == parts[2..];
  }

  /** What the bot answers in the channel. */
  datatype Reply =
    | Ignored
    | HelpText
    | UsageText(name: string)
    | CreateReply(created: CreateOutcome)
    | VoteReply(vote: VoteOutcome)
    | ResultsReply(report: Option<Report>)
    | EndReply(ended: AdminOutcome, report: Option<Report>)
    | DeleteReply(deleted: AdminOutcome)

  /**
   Running a command: each one calls its engine operation; after a successful
   end the results report of the closed poll follows. A delete runs the
   deletion `del` names.
   */
  function Execute(del: Deletion, s: Store, c: Command, channel: ChannelId, user: UserId, freshId: PollId): (r: Effect<Reply>)
    ensures c.Help? ==> r == Effect(HelpText, s)
    ensures c.Usage? ==> r == Effect(UsageText(c.name), s)
    ensures c.ResultsCmd? ==> r == Effect(ResultsReply(Results(s, c.id)), s)
    ensures c.CreateCmd? ==>
              r == Effect(CreateReply(Create(s, c.args, channel, user, freshId).outcome), Create(s, c.args, channel, user, freshId).store)
    ensures c.VoteCmd? ==>
              r == Effect(VoteReply(AddVote(s, c.id, c.option, user).outcome), AddVote(s, c.id, c.option, user).store)
    ensures c.EndCmd? ==>
              r.outcome.EndReply? && r.store == End(s, c.id, user).store && r.outcome.ended == End(s, c.id, user).outcome
    ensures c.EndCmd? && r.outcome.ended == Done ==> r.outcome.report == Results(End(s, c.id, user).store, c.id)
    ensures c.EndCmd? && r.outcome.ended == Done ==>
              r.outcome.report.Some? && !r.outcome.report.value.isActive
              && r.outcome.report.value.question == s.polls[c.id].question
    ensures c.EndCmd? && r.outcome.ended != Done ==> r.outcome.report.None?
    ensures c.DeleteCmd? ==>
              r == Effect(DeleteReply(Remove(del, s, c.id, user).outcome), Remove(del, s, c.id, user).store)
  {
    match c
    case Help => Effect(HelpText, s)
    case Usage(name) => Effect(UsageText(name), s)
    case CreateCmd(args) =>
      var e := Create(s, args, channel, user, freshId);
      Effect(CreateReply(e.outcome), e.store)
    case VoteCmd(id, option) =>
      var e := AddVote(s, id, option, user);
      Effect(VoteReply(e.outcome), e.store)
    case ResultsCmd(id) => Effect(ResultsReply(Results(s, id)), s)
    case EndCmd(id) =>
      var e := End(s, id, user);
      Effect(EndReply(e.outcome, if e.outcome == Done then Results(e.store, id) else None), e.store)
    case DeleteCmd(id) =>
      var e := Remove(del, s, id, user);
      Effect(DeleteReply(e.outcome), e.store)
  }

  /** `handle_message`: anything that is not a command is ignored. */
  function HandleMessage(del: Deletion, s: Store, message: string, channel: ChannelId, user: UserId, freshId: PollId): (r: Effect<Reply>)
    ensures !(Prefix <= message) ==> r == Effect(Ignored, s)
  {
    match ParseMessage(message)
    case None => Effect(Ignored, s)
    case Some(c) => Execute(del, s, c, channel, user, freshId)
  }

  /** The canonical message of a command runs exactly that command. */
  lemma HandleUnparsed(del: Deletion, s: Store, c: Command, channel: ChannelId, user: UserId, freshId: PollId)
    requires WellFormed(c)
    ensures HandleMessage(del, s, Unparse(c), channel, user, freshId) == Execute(del, s, c, channel, user, freshId)
  {
    ParseUnparse(c);
  }

  /** Only create, vote, end and delete can change the store; every other message leaves it as it was. */
  lemma ReadOnlyMessages(del: Deletion, s: Store, message: string, channel: ChannelId, user: UserId, freshId: PollId)
    requires var c := ParseMessage(message);
      c.None? || c.value.Help? || c.value.Usage? || c.value.ResultsCmd?
    ensures HandleMessage(del, s, message, channel, user, freshId).store == s
  {
  }

  /** With the corrected deletion every message keeps the store invariant. */
  lemma HandlePreservesInv(s: Store, message: string, channel: ChannelId, user: UserId, freshId: PollId)
    requires Inv(s)
    ensures Inv(HandleMessage(Corrected, s, message, channel, user, freshId).store)
  {
    match ParseMessage(message)
    case None =>
    case Some(c) =>
      match c
      case CreateCmd(args) => CreatePreservesInv(s, args, channel, user, freshId);
      case VoteCmd(id, option) => AddVotePreservesInv(s, id, option, user);
      case EndCmd(id) => EndPreservesInv(s, id, user);
      case DeleteCmd(id) => DeleteWithReceiptsPreservesInv(s, id, user);
      case _ =>
  }

  /** With either deletion every message keeps the weaker invariant. */
  lemma HandleKeepsSound(del: Deletion, s: Store, message: string, channel: ChannelId, user: UserId, freshId: PollId)
    requires Sound(s)
    ensures Sound(HandleMessage(del, s, message, channel, user, freshId).store)
  {
    match ParseMessage(message)
    case None =>
    case Some(c) =>
      match c
      case CreateCmd(args) => CreateKeepsSound(s, args, channel, user, freshId);
      case VoteCmd(id, option) => AddVoteKeepsSound(s, id, option, user);
      case EndCmd(id) => EndKeepsSound(s, id, user);
      case DeleteCmd(id) => DeleteKeepsSound(s, id, user);
      case _ =>
  }

  lemma HandleNeverReopens(del: Deletion, s: Store, message: string, channel: ChannelId, user: UserId, freshId: PollId)
    ensures StaysClosed(s, HandleMessage(del, s, message, channel, user, freshId).store)
  {
    match ParseMessage(message)
    case None =>
    case Some(c) =>
      match c
      case CreateCmd(args) => CreateKeepsClosed(s, args, channel, user, freshId);
      case VoteCmd(id, option) => AddVoteKeepsClosed(s, id, option, user);
      case EndCmd(id) => EndKeepsClosed(s, id, user);
      case DeleteCmd(id) => DeleteKeepsClosed(s, id, user);
      case _ =>
  }

  /** A message as the bot receives it, with the poll id it would draw if the message creates a poll. */
  datatype Incoming = Incoming(text: string, channel: ChannelId, user: UserId, freshId: PollId)

  /** The store after handling `msgs` in order. */
  function Replay(del: Deletion, s: Store, msgs: seq<Incoming>): Store
    decreases |msgs|
  {
    if msgs == [] then s
    else
      var m := msgs[|msgs| - 1];
      HandleMessage(del, Replay(del, s, msgs[..|msgs| - 1]), m.text, m.channel, m.user, m.freshId).store
  }

  /** With the corrected deletion, whatever messages arrive, the store invariant is kept. */
  lemma {:induction false} ReplayPreservesInv(s: Store, msgs: seq<Incoming>)
    requires Inv(s)
    ensures Inv(Replay(Corrected, s, msgs))
    decreases |msgs|
  {
    if msgs != [] {
      var m := msgs[|msgs| - 1];
      ReplayPreservesInv(s, msgs[..|msgs| - 1]);
      HandlePreservesInv(Replay(Corrected, s, msgs[..|msgs| - 1]), m.text, m.channel, m.user, m.freshId);
    }
  }

  /** With either deletion, whatever messages arrive, receipts back every counted vote and keys stay distinct. */
  lemma {:induction false} ReplayKeepsSound(del: Deletion, s: Store, msgs: seq<Incoming>)
    requires Sound(s)
    ensures Sound(Replay(del, s, msgs))
    decreases |msgs|
  {
    if msgs != [] {
      var m := msgs[|msgs| - 1];
      ReplayKeepsSound(del, s, msgs[..|msgs| - 1]);
      HandleKeepsSound(del, Replay(del, s, msgs[..|msgs| - 1]), m.text, m.channel, m.user, m.freshId);
    }
  }

  /** Poll `id` is in the store before and after each of the messages. */
  predicate KeptThroughout(del: Deletion, s: Store, msgs: seq<Incoming>, id: PollId) {
    id in Replay(del, s, msgs).polls && forall k :: 0 <= k < |msgs| ==> id in Replay(del, s, msgs[..k]).polls
  }

  /**
   Once a poll is closed, no sequence of messages makes it active again as
   long as the poll is not deleted on the way.
   */
  lemma {:induction false} ReplayNeverReopens(del: Deletion, s: Store, msgs: seq<Incoming>, id: PollId)
    requires id in s.polls && !s.polls[id].isActive
    requires KeptThroughout(del, s, msgs, id)
    ensures !Replay(del, s, msgs).polls[id].isActive
    decreases |msgs|
  {
    if msgs != [] {
      var init := msgs[..|msgs| - 1];
      var m := msgs[|msgs| - 1];
      forall k | 0 <= k < |init| ensures id in Replay(del, s, init[..k]).polls {
        assert init[..k] == msgs[..k];
      }
      ReplayNeverReopens(del, s, init, id);
      HandleNeverReopens(del, Replay(del, s, init), m.text, m.channel, m.user, m.freshId);
    }
  }
}
