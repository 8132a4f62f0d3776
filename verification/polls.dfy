/**
 The records the bot keeps in its store. A poll's options are held in the
 order they were created, as the insertion-ordered dictionary of the source
 keeps them, each under its decimal key "1", "2", ...; a receipt `(poll, user)`
 records that the user has voted in the poll.
 */
module Polls {
  import opened Maybe
  import opened Text

  type PollId = string
  type UserId = string
  type ChannelId = string

  datatype OptionEntry = OptionEntry(key: string, text: string, count: nat)

  datatype Poll = Poll(
    creator: UserId,
    question: string,
    options: seq<OptionEntry>,
    isActive: bool,
    channel: ChannelId)

  datatype Store = Store(polls: map<PollId, Poll>, receipts: set<(PollId, UserId)>)

  /** What an operation answers, together with the store it leaves. */
  datatype Effect<+O> = Effect(outcome: O, store: Store)

  const Empty: Store := Store(map[], {})

  /** The votes cast for the options, in total. */
  function Total(opts: seq<OptionEntry>): nat
    decreases |opts|
  {
    if opts == [] then 0 else opts[0].count + Total(opts[1..])
  }

  predicate DistinctKeys(opts: seq<OptionEntry>) {
    forall i, j :: 0 <= i < j < |opts| ==> opts[i].key != opts[j].key
  }

  /** The position of the option stored under `key`, the dictionary lookup of the source. */
  function FindKey(opts: seq<OptionEntry>, key: string): (r: Option<nat>)
    ensures r.Some? ==> r.value < |opts| && opts[r.value].key == key
    ensures r.Some? ==> forall j :: 0 <= j < r.value ==> opts[j].key != key
    ensures r.None? <==> forall j :: 0 <= j < |opts| ==> opts[j].key != key
    decreases |opts|
  {
    if opts == [] then None
    else if opts[0].key == key then Some(0)
    else match FindKey(opts[1..], key)
      case None => None
      case Some(j) => Some(j + 1)
  }

  /**
   The options of a new poll: the i-th choice under the key `str(i)`, counting
   from 1, with no votes. The keys are distinct and the total is zero.
   */
  function NumberedOptions(choices: seq<string>): (r: seq<OptionEntry>)
    ensures |r| == |choices|
    ensures forall i :: 0 <= i < |r| ==> r[i] == OptionEntry(Decimal(i + 1), choices[i], 0)
    ensures DistinctKeys(r)
    ensures Total(r) == 0
  {
    var r := seq(|choices|, i requires 0 <= i < |choices| => OptionEntry(Decimal(i + 1), choices[i], 0));
    forall i, j | 0 <= i < j < |r| ensures r[i].key != r[j].key {
      if r[i].key == r[j].key {
        DecimalInjective(i + 1, j + 1);
      }
    }
    ZeroTotal(r);
    r
  }

  lemma {:induction false} ZeroTotal(opts: seq<OptionEntry>)
    requires forall i :: 0 <= i < |opts| ==> opts[i].count == 0
    ensures Total(opts) == 0
    decreases |opts|
  {
    if opts != [] {
      ZeroTotal(opts[1..]);
    }
  }

  /** Replacing one option changes the total by the difference of the two counts. */
  lemma {:induction false} TotalUpdate(opts: seq<OptionEntry>, j: nat, e: OptionEntry)
    requires j < |opts|
    ensures Total(opts[j := e]) == Total(opts) - opts[j].count + e.count
    decreases j
  {
    if j > 0 {
      assert opts[j := e][1..] == opts[1..][j - 1 := e];
      TotalUpdate(opts[1..], j - 1, e);
    }
  }

  /**
   One more vote for the option at `j`: its count rises by one, every other
   option and its key and text stay as they were, and the total rises by one.
   */
  function Bump(opts: seq<OptionEntry>, j: nat): (r: seq<OptionEntry>)
    requires j < |opts|
    ensures |r| == |opts|
    ensures r[j] == opts[j].(count := opts[j].count + 1)
    ensures forall i :: 0 <= i < |opts| && i != j ==> r[i] == opts[i]
    ensures Total(r) == Total(opts) + 1
  {
    TotalUpdate(opts, j, opts[j].(count := opts[j].count + 1));
    opts[j := opts[j].(count := opts[j].count + 1)]
  }

  /** The users holding a receipt for poll `id`. */
  function VotersOf(receipts: set<(PollId, UserId)>, id: PollId): set<UserId> {
    set r | r in receipts && r.0 == id :: r.1
  }

  /** Every poll holds as many votes in total as it has receipts. */
  predicate Conserved(s: Store) {
    forall id :: id in s.polls ==> Total(s.polls[id].options) == |VotersOf(s.receipts, id)|
  }

  /** Every receipt belongs to a poll in the store. */
  predicate NoOrphans(s: Store) {
    forall r :: r in s.receipts ==> r.0 in s.polls
  }

  /** Every poll's option keys are distinct. */
  predicate KeysDistinct(s: Store) {
    forall id :: id in s.polls ==> DistinctKeys(s.polls[id].options)
  }

  /** The store invariant that creating, voting and ending keep. */
  predicate Inv(s: Store) {
    Conserved(s) && NoOrphans(s) && KeysDistinct(s)
  }

  /** No poll counts more votes than it has receipts. */
  predicate Backed(s: Store) {
    forall id :: id in s.polls ==> Total(s.polls[id].options) <= |VotersOf(s.receipts, id)|
  }

  /**
   The weaker invariant that every operation keeps, deletion as written
   included: receipts back every counted vote, and option keys are distinct.
   */
  predicate Sound(s: Store) {
    Backed(s) && KeysDistinct(s)
  }

  lemma InvSound(s: Store)
    requires Inv(s)
    ensures Sound(s)
  {
  }

  lemma EmptyInv()
    ensures Inv(Empty)
  {
  }

  /** A new receipt for a user adds that user to the poll's voters and to no other poll's. */
  lemma VotersAfterInsert(receipts: set<(PollId, UserId)>, id: PollId, user: UserId, other: PollId)
    requires (id, user) !in receipts
    ensures other == id ==> VotersOf(receipts + {(id, user)}, other) == VotersOf(receipts, other) + {user}
    ensures other == id ==> |VotersOf(receipts + {(id, user)}, other)| == |VotersOf(receipts, other)| + 1
    ensures other != id ==> VotersOf(receipts + {(id, user)}, other) == VotersOf(receipts, other)
  {
    if other == id {
      assert user !in VotersOf(receipts, other);
      assert VotersOf(receipts + {(id, user)}, other) == VotersOf(receipts, other) + {user};
    } else {
      assert VotersOf(receipts + {(id, user)}, other) == VotersOf(receipts, other);
    }
  }

  /** Removing receipts of poll `id` leaves every other poll's voters alone. */
  lemma VotersAfterRemove(receipts: set<(PollId, UserId)>, gone: set<(PollId, UserId)>, id: PollId, other: PollId)
    requires forall r :: r in gone ==> r.0 == id
    requires other != id
    ensures VotersOf(receipts - gone, other) == VotersOf(receipts, other)
  {
  }

  /** With no orphaned receipts, a poll id not in the store has no voters. */
  lemma NoVotersForFreshId(s: Store, id: PollId)
    requires NoOrphans(s) && id !in s.polls
    ensures VotersOf(s.receipts, id) == {}
  {
  }
}
