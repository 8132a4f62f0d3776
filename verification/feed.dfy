/**
 The polling loop: in each round the bot fetches every channel's posts, takes
 the newest one, and handles it only when it is newer than the channel's
 high-water mark and was not written by the bot itself. The mark moves to the
 newest post's time in both cases.
 */
module Feed {
  import opened Maybe
  import opened Polls
  import opened Engine
  import opened Dispatch

  datatype Post = Post(author: UserId, message: string, createAt: int)

  /**
   One fetch of a channel: `posts` is None when the answer carries no posts
   field; `freshId` is the poll id the bot would draw if the post creates a poll.
   */
  datatype Fetch = Fetch(channel: ChannelId, posts: Option<seq<Post>>, freshId: PollId)

  /** The time of the newest post seen so far in each channel. */
  type Marks = map<ChannelId, int>

  /** Python's `max` by creation time: the first post among those with the greatest time. */
  function FirstMax(posts: seq<Post>): (r: nat)
    requires posts != []
    ensures r < |posts|
    ensures forall k :: 0 <= k < |posts| ==> posts[k].createAt <= posts[r].createAt
    ensures forall k :: 0 <= k < r ==> posts[k].createAt < posts[r].createAt
    decreases |posts|
  {
    if |posts| == 1 then 0
    else
      var j := FirstMax(posts[..|posts| - 1]);
      if posts[|posts| - 1].createAt > posts[j].createAt then |posts| - 1 else j
  }

  function Latest(posts: seq<Post>): Post
    requires posts != []
  {
    posts[FirstMax(posts)]
  }

  /** A post time the channel's mark has not reached. */
  predicate IsNew(marks: Marks, channel: ChannelId, t: int) {
    channel !in marks || t > marks[channel]
  }

  /** The loop's state: the marks, the store, and the posts handled so far with their channels. */
  datatype Loop = Loop(marks: Marks, store: Store, handled: seq<(ChannelId, Post)>)

  const Idle: Loop := Loop(map[], Empty, [])

  /**
   One channel in a round. None when the channel has a posts field with no
   posts in it: `max` raises and the rest of the round is abandoned.
   */
  function Visit(del: Deletion, l: Loop, f: Fetch, bot: UserId): (r: Option<Loop>)
    ensures r.None? <==> f.posts == Some([])
    ensures f.posts.None? ==> r == Some(l)
    ensures r.Some? && f.posts.Some? && !IsNew(l.marks, f.channel, Latest(f.posts.value).createAt) ==> r == Some(l)
    ensures r.Some? ==> forall c :: c in l.marks ==> c in r.value.marks && r.value.marks[c] >= l.marks[c]
    ensures r.Some? ==> forall c :: c != f.channel && c in r.value.marks ==> c in l.marks && r.value.marks[c] == l.marks[c]
    ensures r.Some? && f.posts.Some? ==>
              var p := Latest(f.posts.value);
              && f.channel in r.value.marks && r.value.marks[f.channel] >= p.createAt
              && (IsNew(l.marks, f.channel, p.createAt) ==> r.value.marks[f.channel] == p.createAt)
              && (IsNew(l.marks, f.channel, p.createAt) && p.author != bot
                  ==> && r.value.handled == l.handled + [(f.channel, p)]
                      && r.value.store == HandleMessage(del, l.store, p.message, f.channel, p.author, f.freshId).store)
              && (!IsNew(l.marks, f.channel, p.createAt) || p.author == bot
                  ==> r.value.handled == l.handled && r.value.store == l.store)
  {
    match f.posts
    case None => Some(l)
    case Some(posts) =>
      if posts == [] then None
      else
        var p := Latest(posts);
        if !IsNew(l.marks, f.channel, p.createAt) then Some(l)
        else
          var marks := l.marks[f.channel := p.createAt];
          if p.author == bot then Some(l.(marks := marks))
          else
            var e := HandleMessage(del, l.store, p.message, f.channel, p.author, f.freshId);
            Some(Loop(marks, e.store, l.handled + [(f.channel, p)]))
  }

  /** Fetching the same posts again right after handles nothing and changes nothing. */
  lemma NoReplay(del: Deletion, l: Loop, f: Fetch, bot: UserId)
    requires Visit(del, l, f, bot).Some?
    ensures Visit(del, Visit(del, l, f, bot).value, f, bot) == Visit(del, l, f, bot)
  {
  }

  /** One round over the channels, in order, cut short by a channel with no posts. */
  function Round(del: Deletion, l: Loop, fetches: seq<Fetch>, bot: UserId): Loop
    decreases |fetches|
  {
    if fetches == [] then l
    else match Visit(del, l, fetches[0], bot)
      case None => l
      case Some(next) => Round(del, next, fetches[1..], bot)
  }

  /** The rounds of the loop, one after the other. */
  function Watch(del: Deletion, l: Loop, rounds: seq<seq<Fetch>>, bot: UserId): Loop
    decreases |rounds|
  {
    if rounds == [] then l else Watch(del, Round(del, l, rounds[0], bot), rounds[1..], bot)
  }

  /** A channel with an empty post list ends the round: the channels after it are not visited. */
  lemma {:induction false} EmptyChannelEndsRound(del: Deletion, l: Loop, before: seq<Fetch>, f: Fetch, after: seq<Fetch>, bot: UserId)
    requires f.posts == Some([])
    ensures Round(del, l, before + [f] + after, bot) == Round(del, l, before + [f], bot)
    decreases |before|
  {
    if before == [] {
      assert ([f] + after)[0] == f;
      assert [] + [f] + after == [f] + after;
      assert [] + [f] == [f];
    } else {
      assert (before + [f] + after)[0] == before[0];
      assert (before + [f] + after)[1..] == before[1..] + [f] + after;
      assert (before + [f])[1..] == before[1..] + [f];
      match Visit(del, l, before[0], bot)
      case None =>
      case Some(next) => EmptyChannelEndsRound(del, next, before[1..], f, after, bot);
    }
  }

  /** Per channel, the posts were handled in strictly increasing order of time. */
  predicate Ordered(handled: seq<(ChannelId, Post)>) {
    forall i, j :: 0 <= i < j < |handled| && handled[i].0 == handled[j].0 ==> handled[i].1.createAt < handled[j].1.createAt
  }

  /** Every handled post is covered by its channel's mark. */
  predicate Covered(l: Loop) {
    forall i :: 0 <= i < |l.handled| ==> l.handled[i].0 in l.marks && l.handled[i].1.createAt <= l.marks[l.handled[i].0]
  }

  predicate NotByBot(handled: seq<(ChannelId, Post)>, bot: UserId) {
    forall i :: 0 <= i < |handled| ==> handled[i].1.author != bot
  }

  /**
   What the loop keeps: no post handled twice or out of order, none of the
   bot's own, and the store invariant the deletion in use keeps.
   */
  predicate Good(del: Deletion, l: Loop, bot: UserId) {
    Ordered(l.handled) && Covered(l) && NotByBot(l.handled, bot) && Kept(del, l.store)
  }

  lemma IdleGood(del: Deletion, bot: UserId)
    ensures Good(del, Idle, bot)
  {
    EmptyInv();
    InvSound(Empty);
  }

  lemma VisitGood(del: Deletion, l: Loop, f: Fetch, bot: UserId)
    requires Good(del, l, bot)
    requires Visit(del, l, f, bot).Some?
    ensures Good(del, Visit(del, l, f, bot).value, bot)
  {
    var r := Visit(del, l, f, bot).value;
    if f.posts.Some? && r.handled != l.handled {
      var p := Latest(f.posts.value);
      var n := |l.handled|;
      assert r.handled == l.handled + [(f.channel, p)];
      assert IsNew(l.marks, f.channel, p.createAt) && p.author != bot;
      forall i, j | 0 <= i < j < |r.handled| && r.handled[i].0 == r.handled[j].0
        ensures r.handled[i].1.createAt < r.handled[j].1.createAt
      {
        if j == n {
          assert r.handled[i] == l.handled[i];
        } else {
          assert r.handled[i] == l.handled[i] && r.handled[j] == l.handled[j];
        }
      }
      forall i | 0 <= i < |r.handled|
        ensures r.handled[i].0 in r.marks && r.handled[i].1.createAt <= r.marks[r.handled[i].0]
      {
        if i < n {
          assert r.handled[i] == l.handled[i];
        }
      }
      assert NotByBot(r.handled, bot) by {
        forall i | 0 <= i < |r.handled| ensures r.handled[i].1.author != bot {
          if i < n {
            assert r.handled[i] == l.handled[i];
          }
        }
      }
      HandleKeepsSound(del, l.store, p.message, f.channel, p.author, f.freshId);
      if del == Corrected {
        HandlePreservesInv(l.store, p.message, f.channel, p.author, f.freshId);
      }
    }
  }

  lemma {:induction false} RoundGood(del: Deletion, l: Loop, fetches: seq<Fetch>, bot: UserId)
    requires Good(del, l, bot)
    ensures Good(del, Round(del, l, fetches, bot), bot)
    decreases |fetches|
  {
    if fetches != [] {
      match Visit(del, l, fetches[0], bot)
      case None =>
      case Some(next) =>
        VisitGood(del, l, fetches[0], bot);
        RoundGood(del, next, fetches[1..], bot);
    }
  }

  /**
   From a fresh start, whatever the channels return in whatever rounds, no post
   is handled twice, each channel's posts are handled in increasing order of
   time, none of the bot's own posts is handled, and the store invariant the
   deletion keeps holds.
   */
  lemma {:induction false} WatchGood(del: Deletion, l: Loop, rounds: seq<seq<Fetch>>, bot: UserId)
    requires Good(del, l, bot)
    ensures Good(del, Watch(del, l, rounds, bot), bot)
    decreases |rounds|
  {
    if rounds != [] {
      RoundGood(del, l, rounds[0], bot);
      WatchGood(del, Round(del, l, rounds[0], bot), rounds[1..], bot);
    }
  }

  /**
   Started idle, the loop as written keeps receipts behind every counted vote
   and keys distinct; with the corrected deletion it keeps the full invariant.
   */
  lemma WatchFromIdle(del: Deletion, rounds: seq<seq<Fetch>>, bot: UserId)
    ensures var l := Watch(del, Idle, rounds, bot);
      && Ordered(l.handled) && NotByBot(l.handled, bot) && Sound(l.store)
      && (del == Corrected ==> Inv(l.store))
  {
    IdleGood(del, bot);
    WatchGood(del, Idle, rounds, bot);
  }
}
