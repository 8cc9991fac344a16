/** The collection protocol of `getRemoteCallStacks` and the monitor threads, as a state machine over
    the messages in flight.

    Messages may be delivered in any order. A time-out may strike at any moment. Monitors answer when
    they like, or never (their loop may have been stopped). */
module Collection {
  import opened Frames
  import opened Trees
  import opened Trie
  import opened TrieCounts
  import opened Wire

  const REQUEST_TAG: nat := 1
  const TAG_MIN: nat := 2
  const TAG_MAX: nat := 0x7FFF

  type Stacks = seq<seq<Frame>>

  /** A reply is its bytes; `origin` only records the stacks they were made from. */
  datatype Body = Ask(replyTag: nat) | Answer(data: string, origin: Stacks)
  datatype Message = Message(src: nat, dst: nat, tag: nat, body: Body)

  /** A call is identified by the rank that makes it and the tag it drew. */
  datatype Key = Key(rank: nat, tag: nat)

  /** A reply that was sent or merged: from whom, and the stacks its tree was built from. */
  datatype Contribution = Contribution(peer: nat, stacks: Stacks)

  datatype Phase = Sending(next: nat) | Receiving | Done(complete: bool)

  /** One call in progress. `served`, `merged` and `dropped` only record what happened. */
  datatype Session = Session(phase: Phase, finished: nat, tree: Tree, served: seq<Contribution>,
                             merged: seq<Contribution>, dropped: seq<nat>)

  datatype State = State(size: nat, wire: seq<Message>, sessions: map<Key, Session>)

  datatype Step =
    | Start(k: Key)
    | Send(k: Key)
    | Begin(k: Key)
    | Drop(i: nat)
    | Serve(i: nat, stacks: Stacks)
    | Receive(k: Key, i: nat, t: Tree)
    | Timeout(k: Key)
    | Finish(k: Key)

  function Remove<T>(w: seq<T>, i: nat): seq<T>
    requires i < |w|
  {
    w[..i] + w[i + 1..]
  }

  function Opened(): Session {
    Session(Sending(0), 1, EmptyTree(), [], [], [])
  }

  /** The call a message belongs to. */
  function Owner(m: Message): Key {
    match m.body
    case Ask(t) => Key(m.src, t)
    case Answer(_, _) => Key(m.dst, m.tag)
  }

  function Peer(m: Message): nat {
    if m.body.Ask? then m.dst else m.src
  }

  /** The stacks lie in `S` and their tree fits the wire format. */
  ghost predicate Sendable(stacks: Stacks, S: set<Frame>) {
    stacks != [] && StacksIn(stacks, S) && Encodable(Build(stacks))
  }

  ghost predicate Enabled(s: State, step: Step, S: set<Frame>) {
    match step
    // a call that draws `k.tag`; an earlier call of this rank with that tag has returned
    case Start(k) =>
      k.rank < s.size && TAG_MIN <= k.tag <= TAG_MAX && (k in s.sessions ==> s.sessions[k].phase.Done?)
    // MPI_Isend of the tag to the next rank
    case Send(k) => k in s.sessions && s.sessions[k].phase.Sending? && s.sessions[k].phase.next < s.size
    case Begin(k) => k in s.sessions && s.sessions[k].phase == Sending(s.size)
    // a monitor probes for the request tag only; without registered threads it sends nothing back
    case Drop(i) =>
      i < |s.wire| && s.wire[i].tag == REQUEST_TAG && s.wire[i].body.Ask? && Owner(s.wire[i]) in s.sessions
    case Serve(i, stacks) =>
      && i < |s.wire| && s.wire[i].tag == REQUEST_TAG && s.wire[i].body.Ask? && Owner(s.wire[i]) in s.sessions
      && Sendable(stacks, S)
    // a requester probes for its reply tag from any source, and unpacks the reply
    case Receive(k, i, t) =>
      && k in s.sessions && s.sessions[k].phase.Receiving? && s.sessions[k].finished < s.size
      && i < |s.wire| && s.wire[i].dst == k.rank && s.wire[i].tag == k.tag && s.wire[i].body.Answer?
      && Encodable(t) && s.wire[i].body.data == Encode(t)
    case Timeout(k) => k in s.sessions && s.sessions[k].phase.Receiving? && s.sessions[k].finished < s.size
    case Finish(k) => k in s.sessions && s.sessions[k].phase.Receiving? && s.sessions[k].finished >= s.size
  }

  /** The reply of a monitor to a request. */
  ghost function ReplyTo(m: Message, stacks: Stacks): Message
    requires m.body.Ask? && Encodable(Build(stacks))
  {
    Message(m.dst, m.src, m.body.replyTag, Answer(Encode(Build(stacks)), stacks))
  }

  ghost function Apply(s: State, step: Step, S: set<Frame>): State
    requires Enabled(s, step, S)
  {
    match step
    case Start(k) => s.(sessions := s.sessions[k := Opened()])
    case Send(k) =>
      var c := s.sessions[k];
      var p := c.phase.next;
      s.(sessions := s.sessions[k := c.(phase := Sending(p + 1))],
         wire := s.wire + if p == k.rank then [] else [Message(k.rank, p, REQUEST_TAG, Ask(k.tag))])
    case Begin(k) => s.(sessions := s.sessions[k := s.sessions[k].(phase := Receiving)])
    case Drop(i) =>
      var k := Owner(s.wire[i]);
      var c := s.sessions[k];
      s.(sessions := s.sessions[k := c.(dropped := c.dropped + [s.wire[i].dst])], wire := Remove(s.wire, i))
    case Serve(i, stacks) =>
      var m := s.wire[i];
      var k := Owner(m);
      var c := s.sessions[k];
      s.(sessions := s.sessions[k := c.(served := c.served + [Contribution(m.dst, stacks)])],
         wire := Remove(s.wire, i) + [ReplyTo(m, stacks)])
    case Receive(k, i, t) =>
      var c := s.sessions[k];
      var c' := c.(finished := c.finished + 1, tree := Merge(c.tree, t),
                   merged := c.merged + [Contribution(s.wire[i].src, s.wire[i].body.origin)]);
      s.(sessions := s.sessions[k := c'], wire := Remove(s.wire, i))
    case Timeout(k) => s.(sessions := s.sessions[k := s.sessions[k].(phase := Done(false))])
    case Finish(k) => s.(sessions := s.sessions[k := s.sessions[k].(phase := Done(true))])
  }

  ghost predicate Init(s: State) {
    s.wire == [] && s.sessions == map[]
  }

  // ---- Counting messages ----

  ghost function Tally(w: seq<Message>, f: Message -> bool): nat {
    if w == [] then 0 else Tally(w[..|w| - 1], f) + if f(w[|w| - 1]) then 1 else 0
  }

  lemma {:induction false} TallyAppend(a: seq<Message>, b: seq<Message>, f: Message -> bool)
    ensures Tally(a + b, f) == Tally(a, f) + Tally(b, f)
    decreases b
  {
    if b == [] {
      assert a + b == a;
    } else {
      assert (a + b)[..|a + b| - 1] == a + b[..|b| - 1];
      TallyAppend(a, b[..|b| - 1], f);
    }
  }

  lemma {:induction false} TallyOne(m: Message, f: Message -> bool)
    ensures Tally([m], f) == if f(m) then 1 else 0
  {
    assert [m][..0] == [];
  }

  lemma {:induction false} TallyRemove(w: seq<Message>, i: nat, f: Message -> bool)
    requires i < |w|
    ensures Tally(w, f) == Tally(Remove(w, i), f) + if f(w[i]) then 1 else 0
  {
    assert w == w[..i] + [w[i]] + w[i + 1..];
    TallyAppend(w[..i] + [w[i]], w[i + 1..], f);
    TallyAppend(w[..i], [w[i]], f);
    TallyAppend(w[..i], w[i + 1..], f);
    TallyOne(w[i], f);
  }

  lemma {:induction false} TallyLess(w: seq<Message>, f: Message -> bool, g: Message -> bool)
    requires forall m :: f(m) ==> g(m)
    ensures Tally(w, f) <= Tally(w, g)
  {
    if w != [] { TallyLess(w[..|w| - 1], f, g); }
  }

  lemma {:induction false} TallyNone(w: seq<Message>, f: Message -> bool)
    ensures Tally(w, f) == 0 <==> forall i | 0 <= i < |w| :: !f(w[i])
  {
    if w != [] {
      TallyNone(w[..|w| - 1], f);
      assert forall i | 0 <= i < |w| - 1 :: w[..|w| - 1][i] == w[i];
    }
  }

  function Requests(k: Key): Message -> bool {
    (m: Message) => m.body.Ask? && Owner(m) == k
  }

  function Replies(k: Key): Message -> bool {
    (m: Message) => m.body.Answer? && Owner(m) == k
  }

  function Traffic(k: Key): Message -> bool {
    (m: Message) => Owner(m) == k
  }

  function Between(k: Key, p: nat): Message -> bool {
    (m: Message) => Owner(m) == k && Peer(m) == p
  }

  lemma {:induction false} TrafficSplits(w: seq<Message>, k: Key)
    ensures Tally(w, Traffic(k)) == Tally(w, Requests(k)) + Tally(w, Replies(k))
  {
    if w != [] { TrafficSplits(w[..|w| - 1], k); }
  }

  // ---- Accounts ----

  /** Peers from `next` on. */
  ghost function Unasked(size: nat, rank: nat, next: nat): nat
    decreases size - next
  {
    if next >= size then 0 else Unasked(size, rank, next + 1) + if next == rank then 0 else 1
  }

  ghost function UnaskedOf(s: State, k: Key): nat
    requires k in s.sessions
  {
    match s.sessions[k].phase
    case Sending(next) => Unasked(s.size, k.rank, next)
    case Receiving => 0
    case Done(_) => 0
  }

  ghost function MergedFrom(merged: seq<Contribution>, p: nat): nat {
    if merged == [] then 0
    else MergedFrom(merged[..|merged| - 1], p) + if merged[|merged| - 1].peer == p then 1 else 0
  }

  ghost function DroppedBy(dropped: seq<nat>, p: nat): nat {
    if dropped == [] then 0
    else DroppedBy(dropped[..|dropped| - 1], p) + if dropped[|dropped| - 1] == p then 1 else 0
  }

  /** Where the exchange with peer `p` stands: not asked, in flight, merged or dropped. */
  ghost function Account(s: State, k: Key, p: nat): nat
    requires k in s.sessions
  {
    var c := s.sessions[k];
    (if c.phase.Sending? && c.phase.next <= p && p != k.rank then 1 else 0)
    + Tally(s.wire, Between(k, p)) + MergedFrom(c.merged, p) + DroppedBy(c.dropped, p)
  }

  /** All exchanges of a call together. */
  ghost function Total(s: State, k: Key): nat
    requires k in s.sessions
  {
    UnaskedOf(s, k) + Tally(s.wire, Requests(k)) + Tally(s.wire, Replies(k))
    + |s.sessions[k].merged| + |s.sessions[k].dropped|
  }

  ghost function Groups(merged: seq<Contribution>): (g: seq<Stacks>)
    ensures |g| == |merged|
  {
    seq(|merged|, i requires 0 <= i < |merged| => merged[i].stacks)
  }

  // ---- The invariant ----

  /** A message is a request exactly when it bears the request tag, and a reply holds a packed tree. */
  ghost predicate GoodMessage(s: State, m: Message, S: set<Frame>) {
    && m.src < s.size && m.dst < s.size && m.src != m.dst
    && (m.tag == REQUEST_TAG <==> m.body.Ask?)
    && Owner(m) in s.sessions
    && (m.body.Answer? ==> Sendable(m.body.origin, S) && m.body.data == Encode(Build(m.body.origin)))
  }

  ghost predicate GoodSession(s: State, k: Key, S: set<Frame>)
    requires k in s.sessions
  {
    var c := s.sessions[k];
    && k.rank < s.size && TAG_MIN <= k.tag <= TAG_MAX
    && (c.phase.Sending? ==> c.phase.next <= s.size)
    && c.finished == 1 + |c.merged|
    && GroupsIn(Groups(c.merged), S)
    && c.tree == MergeAll(BuildAll(Groups(c.merged)))
    && (c.phase == Done(true) ==> c.finished >= s.size)
  }

  /** Replies of a call in flight, with what they were made from. */
  ghost function Flying(w: seq<Message>, k: Key): multiset<Contribution> {
    if w == [] then multiset{}
    else Flying(w[..|w| - 1], k) + Carried(w[|w| - 1], k)
  }

  ghost function Carried(m: Message, k: Key): multiset<Contribution> {
    if m.body.Answer? && Owner(m) == k then multiset{Contribution(m.src, m.body.origin)} else multiset{}
  }

  /** What the monitors served was merged or is in flight. */
  ghost predicate Delivered(s: State, k: Key)
    requires k in s.sessions
  {
    multiset(s.sessions[k].served) == multiset(s.sessions[k].merged) + Flying(s.wire, k)
  }

  ghost predicate Balanced(s: State, k: Key)
    requires k in s.sessions
  {
    && Total(s, k) == s.size - 1
    && forall p: nat | p < s.size :: Account(s, k, p) == if p == k.rank then 0 else 1
  }

  /** Messages and calls are as they should be, whatever tags were drawn. */
  ghost predicate Sane(s: State, S: set<Frame>) {
    && (forall i | 0 <= i < |s.wire| :: GoodMessage(s, s.wire[i], S))
    && (forall k | k in s.sessions :: GoodSession(s, k, S))
  }

  /** The accounts of one call are right. */
  ghost predicate Accurate(s: State, k: Key) {
    k in s.sessions ==> Balanced(s, k) && Delivered(s, k)
  }

  /** No message of an earlier call with this rank and tag is still in flight. */
  ghost predicate Quiet(s: State, k: Key) {
    Tally(s.wire, Traffic(k)) == 0
  }

  ghost predicate Opens(step: Step, k: Key) {
    step.Start? && step.k == k
  }

  ghost predicate Next(s: State, s': State, S: set<Frame>) {
    exists step :: Enabled(s, step, S) && s' == Apply(s, step, S)
  }

  /** A step that opens the call `k` only when its tag is quiet; what tags other calls draw does not matter. */
  ghost predicate QuietNext(s: State, s': State, k: Key, S: set<Frame>) {
    exists step :: Enabled(s, step, S) && (Opens(step, k) ==> Quiet(s, k)) && s' == Apply(s, step, S)
  }

  /** A step that does not open the call `k`. */
  ghost predicate OtherNext(s: State, s': State, k: Key, S: set<Frame>) {
    exists step :: Enabled(s, step, S) && !Opens(step, k) && s' == Apply(s, step, S)
  }

  /** A tag the rank has not used before is quiet. */
  lemma {:induction false} FreshIsQuiet(s: State, k: Key, S: set<Frame>)
    requires Sane(s, S) && k !in s.sessions
    ensures Quiet(s, k)
  {
    TallyNone(s.wire, Traffic(k));
  }

  // ---- Every step keeps the accounts ----

  lemma {:induction false} UnaskedTotal(size: nat, rank: nat, next: nat)
    requires rank < size && next <= size
    ensures Unasked(size, rank, next) == size - next - if next <= rank then 1 else 0
    decreases size - next
  {
    if next < size { UnaskedTotal(size, rank, next + 1); }
  }

  /** What sending to one rank does to a count of messages. */
  lemma {:induction false} SendTally(s: State, k: Key, S: set<Frame>, f: Message -> bool)
    requires Enabled(s, Send(k), S)
    ensures var p := s.sessions[k].phase.next;
      Tally(Apply(s, Send(k), S).wire, f)
      == Tally(s.wire, f) + if p != k.rank && f(Message(k.rank, p, REQUEST_TAG, Ask(k.tag))) then 1 else 0
  {
    var p := s.sessions[k].phase.next;
    var m := Message(k.rank, p, REQUEST_TAG, Ask(k.tag));
    TallyAppend(s.wire, if p == k.rank then [] else [m], f);
    TallyOne(m, f);
  }

  lemma {:induction false} ServeTally(s: State, i: nat, stacks: Stacks, S: set<Frame>, f: Message -> bool)
    requires Enabled(s, Serve(i, stacks), S)
    ensures var m := s.wire[i];
      var a := ReplyTo(m, stacks);
      Tally(Apply(s, Serve(i, stacks), S).wire, f) + (if f(m) then 1 else 0) == Tally(s.wire, f) + if f(a) then 1 else 0
  {
    hide Encode, Build, Encodable;
    var m := s.wire[i];
    var a := ReplyTo(m, stacks);
    TallyRemove(s.wire, i, f);
    TallyAppend(Remove(s.wire, i), [a], f);
    TallyOne(a, f);
  }

  /** The call `k` keeps its accounts in a step that does not open it. */
  ghost predicate Kept(s: State, s': State, k: Key) {
    && k in s.sessions && k in s'.sessions && s'.size == s.size
    && Total(s', k) == Total(s, k)
    && forall p: nat | p < s.size :: Account(s', k, p) == Account(s, k, p)
  }

  lemma {:induction false} SendKept(s: State, c: Key, k: Key, S: set<Frame>)
    requires Enabled(s, Send(c), S) && k in s.sessions
    ensures Kept(s, Apply(s, Send(c), S), k)
  {
    hide Tally, Sendable;
    var s' := Apply(s, Send(c), S);
    SendTally(s, c, S, Requests(k));
    SendTally(s, c, S, Replies(k));
    forall p: nat | p < s.size ensures Account(s', k, p) == Account(s, k, p) {
      SendTally(s, c, S, Between(k, p));
    }
  }

  lemma {:induction false} DropKept(s: State, i: nat, k: Key, S: set<Frame>)
    requires Enabled(s, Drop(i), S) && k in s.sessions
    ensures Kept(s, Apply(s, Drop(i), S), k)
  {
    hide Tally, Remove, Sendable;
    var s' := Apply(s, Drop(i), S);
    var d := s.sessions[k].dropped;
    TallyRemove(s.wire, i, Requests(k));
    TallyRemove(s.wire, i, Replies(k));
    assert (d + [s.wire[i].dst])[..|d|] == d;
    forall p: nat | p < s.size ensures Account(s', k, p) == Account(s, k, p) {
      TallyRemove(s.wire, i, Between(k, p));
    }
  }

  lemma {:induction false} ServeKept(s: State, i: nat, stacks: Stacks, k: Key, S: set<Frame>)
    requires Enabled(s, Serve(i, stacks), S) && k in s.sessions
    ensures Kept(s, Apply(s, Serve(i, stacks), S), k)
  {
    hide Tally, Remove, Sendable, Encode, Build;
    var s' := Apply(s, Serve(i, stacks), S);
    ServeTally(s, i, stacks, S, Requests(k));
    ServeTally(s, i, stacks, S, Replies(k));
    forall p: nat | p < s.size ensures Account(s', k, p) == Account(s, k, p) {
      ServeTally(s, i, stacks, S, Between(k, p));
    }
  }

  lemma {:induction false} ReceiveKept(s: State, c: Key, i: nat, t: Tree, k: Key, S: set<Frame>)
    requires Enabled(s, Receive(c, i, t), S) && k in s.sessions
    ensures Kept(s, Apply(s, Receive(c, i, t), S), k)
  {
    hide Tally, Remove, Sendable, Encode, Build, Merge;
    var s' := Apply(s, Receive(c, i, t), S);
    var d := s.sessions[k].merged;
    var n := Contribution(s.wire[i].src, s.wire[i].body.origin);
    TallyRemove(s.wire, i, Requests(k));
    TallyRemove(s.wire, i, Replies(k));
    assert (d + [n])[..|d|] == d;
    forall p: nat | p < s.size ensures Account(s', k, p) == Account(s, k, p) {
      TallyRemove(s.wire, i, Between(k, p));
    }
  }

  lemma {:induction false} StepKept(s: State, step: Step, k: Key, S: set<Frame>)
    requires Enabled(s, step, S) && k in s.sessions && !(step.Start? && step.k == k)
    ensures Kept(s, Apply(s, step, S), k)
  {
    match step
    case Start(_) =>
    case Send(c) => SendKept(s, c, k, S);
    case Begin(c) => assert Unasked(s.size, c.rank, s.size) == 0;
    case Drop(i) => DropKept(s, i, k, S);
    case Serve(i, stacks) => ServeKept(s, i, stacks, k, S);
    case Receive(c, i, t) => ReceiveKept(s, c, i, t, k, S);
    case Timeout(_) =>
    case Finish(_) =>
  }

  /** A call just opened is balanced exactly when no message of its rank and tag is in flight; otherwise its
      accounts are out by these messages. */
  lemma {:induction false} StartExactly(s: State, k: Key, S: set<Frame>)
    requires Enabled(s, Start(k), S)
    ensures var s' := Apply(s, Start(k), S);
      && Total(s', k) == s.size - 1 + Tally(s.wire, Traffic(k))
      && forall p: nat | p < s.size ::
           Account(s', k, p) == (if p == k.rank then 0 else 1) + Tally(s.wire, Between(k, p))
    ensures Balanced(Apply(s, Start(k), S), k) <==> Quiet(s, k)
  {
    var s' := Apply(s, Start(k), S);
    UnaskedTotal(s.size, k.rank, 0);
    TrafficSplits(s.wire, k);
    if Quiet(s, k) {
      forall p: nat | p < s.size ensures Account(s', k, p) == if p == k.rank then 0 else 1 {
        TallyLess(s.wire, Between(k, p), Traffic(k));
      }
    }
  }

  // ---- What was served is merged or in flight ----

  lemma {:induction false} FlyingAppend(a: seq<Message>, b: seq<Message>, k: Key)
    ensures Flying(a + b, k) == Flying(a, k) + Flying(b, k)
    decreases b
  {
    if b == [] {
      assert a + b == a;
    } else {
      assert (a + b)[..|a + b| - 1] == a + b[..|b| - 1];
      FlyingAppend(a, b[..|b| - 1], k);
    }
  }

  lemma FlyingOne(m: Message, k: Key)
    ensures Flying([m], k) == Carried(m, k)
  {
    assert [m][..0] == [];
  }

  lemma {:induction false} FlyingRemove(w: seq<Message>, i: nat, k: Key)
    requires i < |w|
    ensures Flying(w, k) == Flying(Remove(w, i), k) + Carried(w[i], k)
  {
    hide Flying, Carried;
    assert w == w[..i] + [w[i]] + w[i + 1..];
    FlyingAppend(w[..i] + [w[i]], w[i + 1..], k);
    FlyingAppend(w[..i], [w[i]], k);
    FlyingAppend(w[..i], w[i + 1..], k);
    FlyingOne(w[i], k);
  }

  lemma {:induction false} FlyingNone(w: seq<Message>, k: Key)
    requires Tally(w, Traffic(k)) == 0
    ensures Flying(w, k) == multiset{}
  {
    if w != [] { FlyingNone(w[..|w| - 1], k); }
  }

  lemma {:induction false} SendDelivered(s: State, c: Key, k: Key, S: set<Frame>)
    requires Enabled(s, Send(c), S) && k in s.sessions && Delivered(s, k)
    ensures Delivered(Apply(s, Send(c), S), k)
  {
    hide Flying;
    var p := s.sessions[c].phase.next;
    var m := Message(c.rank, p, REQUEST_TAG, Ask(c.tag));
    if p == c.rank {
      assert s.wire + [] == s.wire;
    } else {
      FlyingAppend(s.wire, [m], k);
      FlyingOne(m, k);
    }
  }

  lemma {:induction false} DropDelivered(s: State, i: nat, k: Key, S: set<Frame>)
    requires Enabled(s, Drop(i), S) && k in s.sessions && Delivered(s, k)
    ensures Delivered(Apply(s, Drop(i), S), k)
  {
    hide Flying, Remove;
    FlyingRemove(s.wire, i, k);
  }

  lemma {:induction false} ServeDelivered(s: State, i: nat, stacks: Stacks, k: Key, S: set<Frame>)
    requires Enabled(s, Serve(i, stacks), S) && k in s.sessions && Delivered(s, k)
    ensures Delivered(Apply(s, Serve(i, stacks), S), k)
  {
    hide Flying, Remove, Encode, Build, Encodable, Sendable;
    SendableEncodable(stacks, S);
    var m := s.wire[i];
    FlyingRemove(s.wire, i, k);
    FlyingAppend(Remove(s.wire, i), [ReplyTo(m, stacks)], k);
    FlyingOne(ReplyTo(m, stacks), k);
  }

  lemma {:induction false} ReceiveDelivered(s: State, c: Key, i: nat, t: Tree, k: Key, S: set<Frame>)
    requires Enabled(s, Receive(c, i, t), S) && k in s.sessions && Delivered(s, k)
    ensures Delivered(Apply(s, Receive(c, i, t), S), k)
  {
    hide Flying, Remove, Encode, Encodable, Merge;
    FlyingRemove(s.wire, i, k);
  }

  lemma {:induction false} StepDelivered(s: State, step: Step, k: Key, S: set<Frame>)
    requires Enabled(s, step, S) && k in s.sessions && Delivered(s, k) && !(step.Start? && step.k == k)
    ensures Delivered(Apply(s, step, S), k)
  {
    hide Flying, Remove, Encode, Build, Encodable, Sendable, Merge;
    match step
    case Start(_) =>
    case Send(c) => SendDelivered(s, c, k, S);
    case Begin(_) =>
    case Drop(i) => DropDelivered(s, i, k, S);
    case Serve(i, stacks) => ServeDelivered(s, i, stacks, k, S);
    case Receive(c, i, t) => ReceiveDelivered(s, c, i, t, k, S);
    case Timeout(_) =>
    case Finish(_) =>
  }

  // ---- Messages and sessions stay good ----

  lemma MessageKept(s: State, s': State, m: Message, S: set<Frame>)
    requires GoodMessage(s, m, S) && s'.size == s.size && s.sessions.Keys <= s'.sessions.Keys
    ensures GoodMessage(s', m, S)
  {
    hide Sendable, Encode, Build, Encodable;
  }

  /** Where the messages come from that are in flight after a step. */
  lemma {:induction false} StepWire(s: State, step: Step, S: set<Frame>, m: Message)
    requires Enabled(s, step, S) && m in Apply(s, step, S).wire
    ensures Apply(s, step, S).size == s.size && s.sessions.Keys <= Apply(s, step, S).sessions.Keys
    ensures m in s.wire
      || (step.Send? && step.k in s.sessions && s.sessions[step.k].phase.Sending?
          && s.sessions[step.k].phase.next < s.size && s.sessions[step.k].phase.next != step.k.rank
          && m == Message(step.k.rank, s.sessions[step.k].phase.next, REQUEST_TAG, Ask(step.k.tag)))
      || (step.Serve? && step.i < |s.wire| && s.wire[step.i].body.Ask? && Owner(s.wire[step.i]) in s.sessions
          && Sendable(step.stacks, S) && Encodable(Build(step.stacks)) && m == ReplyTo(s.wire[step.i], step.stacks))
  {
    hide Encode, Build, Encodable, Merge;
  }

  lemma {:induction false} StepMessages(s: State, step: Step, S: set<Frame>)
    requires Sane(s, S) && Enabled(s, step, S)
    ensures var s' := Apply(s, step, S); forall i | 0 <= i < |s'.wire| :: GoodMessage(s', s'.wire[i], S)
  {
    hide Sendable, Encode, Encodable, Build, Balanced, Delivered, Enabled, Apply, GoodMessage;
    var s' := Apply(s, step, S);
    forall j | 0 <= j < |s'.wire| ensures GoodMessage(s', s'.wire[j], S) {
      var m := s'.wire[j];
      StepWire(s, step, S, m);
      if m in s.wire {
        var i :| 0 <= i < |s.wire| && s.wire[i] == m;
        assert GoodMessage(s, s.wire[i], S);
        MessageKept(s, s', m, S);
      } else if step.Serve? {
        ReplyGood(s, s', s.wire[step.i], step.stacks, S);
      } else {
        assert GoodSession(s, step.k, S);
        RequestGood(s', m, S);
      }
    }
  }

  lemma ReplyGood(s: State, s': State, m: Message, stacks: Stacks, S: set<Frame>)
    requires Sane(s, S) && m in s.wire && m.body.Ask? && Sendable(stacks, S) && Encodable(Build(stacks))
    requires Owner(m) in s.sessions && s'.size == s.size && s.sessions.Keys <= s'.sessions.Keys
    ensures GoodMessage(s', ReplyTo(m, stacks), S)
  {
    hide Sendable, Encode, Build, Encodable, Balanced, Delivered, MergeAll;
    var i :| 0 <= i < |s.wire| && s.wire[i] == m;
    assert GoodMessage(s, s.wire[i], S) && GoodSession(s, Owner(m), S);
  }

  lemma RequestGood(s: State, m: Message, S: set<Frame>)
    requires m.body.Ask? && m.tag == REQUEST_TAG && m.src < s.size && m.dst < s.size && m.src != m.dst
    requires Owner(m) in s.sessions
    ensures GoodMessage(s, m, S)
  {
  }

  /** A call that takes no reply in a step stays good. */
  lemma {:induction false} SessionKept(s: State, step: Step, k: Key, S: set<Frame>)
    requires Enabled(s, step, S) && k in s.sessions && GoodSession(s, k, S)
    requires !(step.Start? && step.k == k) && !(step.Receive? && step.k == k)
    ensures k in Apply(s, step, S).sessions && GoodSession(Apply(s, step, S), k, S)
  {
    hide Encode, Build, Merge, MergeAll, BuildAll, GroupsIn, Groups, Encodable, Sendable, Remove;
  }

  lemma {:induction false} ReceiveSession(s: State, k: Key, i: nat, t: Tree, S: set<Frame>)
    requires Enabled(s, Receive(k, i, t), S) && GoodSession(s, k, S) && GoodMessage(s, s.wire[i], S)
    ensures GoodSession(Apply(s, Receive(k, i, t), S), k, S)
  {
    hide Encode, Build, Merge, MergeAll, BuildAll, GroupsIn, Groups, Encodable, Sendable, Remove;
    var m := s.wire[i];
    TreeRead(t, m.body.origin, S);
    MergedGroups(s.sessions[k].merged, Contribution(m.src, m.body.origin), S);
  }

  lemma StartSession(s: State, k: Key, S: set<Frame>)
    requires Enabled(s, Start(k), S)
    ensures GoodSession(Apply(s, Start(k), S), k, S)
  {
    assert Groups([]) == [] && BuildAll([]) == [] && MergeAll([]) == EmptyTree();
  }

  lemma {:induction false} StepSession(s: State, step: Step, k: Key, S: set<Frame>)
    requires Sane(s, S) && Enabled(s, step, S) && k in Apply(s, step, S).sessions
    ensures GoodSession(Apply(s, step, S), k, S)
  {
    hide Encode, Build, Merge, MergeAll, Balanced, Delivered, Encodable, Sendable, GoodMessage, GoodSession, Remove;
    if step.Start? && step.k == k {
      StartSession(s, k, S);
    } else {
      assert k in s.sessions;
      assert GoodSession(s, k, S);
      if step.Receive? && step.k == k {
        assert GoodMessage(s, s.wire[step.i], S);
        ReceiveSession(s, k, step.i, step.t, S);
      } else {
        SessionKept(s, step, k, S);
      }
    }
  }

  /** The tree read from the bytes is the one they were made from. */
  lemma {:induction false} TreeRead(t: Tree, origin: Stacks, S: set<Frame>)
    requires Encodable(t) && Sendable(origin, S) && Encode(t) == Encode(Build(origin))
    ensures t == Build(origin) && StacksIn(origin, S)
  {
    hide Encode, Build;
    EncodePrefixFree(t, Build(origin), [], []);
  }

  /** One more reply. */
  lemma {:induction false} MergedGroups(merged: seq<Contribution>, n: Contribution, S: set<Frame>)
    requires GroupsIn(Groups(merged), S) && StacksIn(n.stacks, S)
    ensures GroupsIn(Groups(merged + [n]), S)
    ensures MergeAll(BuildAll(Groups(merged + [n]))) == Merge(MergeAll(BuildAll(Groups(merged))), Build(n.stacks))
  {
    hide Build, Merge;
    var t := BuildAll(Groups(merged));
    assert Groups(merged + [n]) == Groups(merged) + [n.stacks];
    assert BuildAll(Groups(merged + [n])) == t + [Build(n.stacks)];
    assert (t + [Build(n.stacks)])[..|t|] == t;
  }

  lemma KeptBalanced(s: State, step: Step, k: Key, S: set<Frame>)
    requires Enabled(s, step, S) && k in s.sessions && Balanced(s, k) && !(step.Start? && step.k == k)
    ensures k in Apply(s, step, S).sessions && Balanced(Apply(s, step, S), k)
  {
    hide Enabled, Apply, Account, Total;
    StepKept(s, step, k, S);
  }

  lemma StartDelivered(s: State, k: Key, S: set<Frame>)
    requires Enabled(s, Start(k), S) && Quiet(s, k)
    ensures Delivered(Apply(s, Start(k), S), k)
  {
    hide Flying, Tally;
    FlyingNone(s.wire, k);
  }

  /** Every step keeps messages and calls as they should be, whatever tags are drawn. */
  lemma {:induction false} StepKeepsSane(s: State, step: Step, S: set<Frame>)
    requires Sane(s, S) && Enabled(s, step, S)
    ensures Sane(Apply(s, step, S), S)
  {
    hide GoodMessage, GoodSession;
    var s' := Apply(s, step, S);
    StepMessages(s, step, S);
    forall k | k in s'.sessions ensures GoodSession(s', k, S) {
      StepSession(s, step, k, S);
    }
  }

  /** Every step keeps the accounts of the call `k` right, if it does not open `k` on a tag that is not quiet. */
  lemma {:induction false} StepKeepsAccounts(s: State, step: Step, k: Key, S: set<Frame>)
    requires Accurate(s, k) && Enabled(s, step, S) && (Opens(step, k) ==> Quiet(s, k))
    ensures Accurate(Apply(s, step, S), k)
  {
    hide Quiet, Delivered, Balanced;
    if Opens(step, k) {
      StartExactly(s, k, S);
      StartDelivered(s, k, S);
    } else if k in Apply(s, step, S).sessions {
      assert k in s.sessions;
      KeptBalanced(s, step, k, S);
      StepDelivered(s, step, k, S);
    }
  }

  /** A run, with any tags. */
  ghost predicate Run(run: seq<State>, S: set<Frame>) {
    && run != [] && Init(run[0])
    && forall i | 0 <= i < |run| - 1 :: Next(run[i], run[i + 1], S)
  }

  /** A run in which the call `k` is opened on a quiet tag only. */
  ghost predicate RunFor(run: seq<State>, k: Key, S: set<Frame>) {
    && run != [] && Init(run[0])
    && forall i | 0 <= i < |run| - 1 :: QuietNext(run[i], run[i + 1], k, S)
  }

  lemma {:induction false} RunForIsRun(run: seq<State>, k: Key, S: set<Frame>)
    requires RunFor(run, k, S)
    ensures Run(run, S)
  {
    hide Enabled, Apply, Init, Quiet;
    forall i | 0 <= i < |run| - 1 ensures Next(run[i], run[i + 1], S) {
      assert QuietNext(run[i], run[i + 1], k, S);
    }
  }

  lemma {:induction false} RunKeepsSane(run: seq<State>, S: set<Frame>, i: nat)
    requires Run(run, S) && i < |run|
    ensures Sane(run[i], S)
    decreases i
  {
    hide Enabled, Apply, GoodMessage, GoodSession;
    if i > 0 {
      RunKeepsSane(run, S, i - 1);
      assert Next(run[i - 1], run[i - 1 + 1], S);
      var step :| Enabled(run[i - 1], step, S) && run[i] == Apply(run[i - 1], step, S);
      StepKeepsSane(run[i - 1], step, S);
    }
  }

  lemma {:induction false} RunKeepsAccounts(run: seq<State>, k: Key, S: set<Frame>, i: nat)
    requires RunFor(run, k, S) && i < |run|
    ensures Accurate(run[i], k)
    decreases i
  {
    hide Enabled, Apply, Balanced, Delivered, Quiet;
    if i > 0 {
      RunKeepsAccounts(run, k, S, i - 1);
      assert QuietNext(run[i - 1], run[i - 1 + 1], k, S);
      var s := run[i - 1];
      var step :| Enabled(s, step, S) && (Opens(step, k) ==> Quiet(s, k)) && run[i] == Apply(s, step, S);
      StepKeepsAccounts(s, step, k, S);
    }
  }

  /** From any state on: as long as the call just opened is not opened again, its accounts are out by just the
      messages of its rank and tag that were in flight when it was opened, and right exactly when there were none. */
  lemma {:induction false} AccountsExactly(s: State, k: Key, run: seq<State>, S: set<Frame>, i: nat)
    requires Enabled(s, Start(k), S) && run != [] && run[0] == Apply(s, Start(k), S)
    requires forall j | 0 <= j < |run| - 1 :: OtherNext(run[j], run[j + 1], k, S)
    requires i < |run|
    ensures k in run[i].sessions && run[i].size == s.size
    ensures Total(run[i], k) == s.size - 1 + Tally(s.wire, Traffic(k))
    ensures forall p: nat | p < s.size ::
      Account(run[i], k, p) == (if p == k.rank then 0 else 1) + Tally(s.wire, Between(k, p))
    ensures Balanced(run[i], k) <==> Quiet(s, k)
    decreases i
  {
    hide Enabled, Total, Account;
    if i == 0 {
      StartExactly(s, k, S);
    } else {
      hide Apply, Tally;
      AccountsExactly(s, k, run, S, i - 1);
      assert OtherNext(run[i - 1], run[i - 1 + 1], k, S);
      var t := run[i - 1];
      var step :| Enabled(t, step, S) && !Opens(step, k) && run[i] == Apply(t, step, S);
      StepKept(t, step, k, S);
      assert Balanced(run[i], k) <==> Balanced(t, k);
    }
  }

  // ---- What this means for a call ----

  /** In every state of every run in which the tag of this call was quiet: not yet asked, asked, answered, merged
      and dropped peers add up to all others, no peer is merged twice, and only what the peers served is merged. */
  lemma {:induction false} Conservation(run: seq<State>, i: nat, k: Key, S: set<Frame>)
    requires RunFor(run, k, S) && i < |run| && k in run[i].sessions
    ensures var s, c := run[i], run[i].sessions[k];
      UnaskedOf(s, k) + Tally(s.wire, Requests(k)) + Tally(s.wire, Replies(k)) + |c.merged| + |c.dropped| == s.size - 1
    ensures forall p: nat | p < run[i].size :: MergedFrom(run[i].sessions[k].merged, p) <= if p == k.rank then 0 else 1
    ensures multiset(run[i].sessions[k].merged) <= multiset(run[i].sessions[k].served)
  {
    RunKeepsAccounts(run, k, S, i);
    hide RunFor;
    var s := run[i];
    assert Balanced(s, k);
    DeliveredSome(s, k);
    forall p: nat | p < s.size ensures MergedFrom(s.sessions[k].merged, p) <= if p == k.rank then 0 else 1 {
      assert Account(s, k, p) == if p == k.rank then 0 else 1;
    }
  }

  /** A call on a quiet tag that counted all replies merged every peer exactly once, just what the peers served for it,
      nothing of it is left in flight, and its tree is what merging the replies in order of arrival gives. On
      coherent frames that is the tree built from the stacks of all peers. */
  lemma {:induction false} CompleteCall(run: seq<State>, i: nat, k: Key, S: set<Frame>)
    requires RunFor(run, k, S) && i < |run| && k in run[i].sessions
    requires run[i].sessions[k].finished >= run[i].size
    ensures var s, c := run[i], run[i].sessions[k];
      && (forall p: nat | p < s.size :: MergedFrom(c.merged, p) == if p == k.rank then 0 else 1)
      && multiset(c.merged) == multiset(c.served)
      && (forall j | 0 <= j < |s.wire| :: Owner(s.wire[j]) != k)
      && c.tree == MergeAll(BuildAll(Groups(c.merged)))
      && (Coherent(S) ==> c.tree == Build(Concat(Groups(c.merged))))
  {
    hide *;
    RunForIsRun(run, k, S);
    InCall(run, i, k, S);
    Accounts(run, i, k, S);
    var s, c := run[i], run[i].sessions[k];
    MergedOnce(s, k, S);
    if Coherent(S) { MergeAllIsBuild(BuildAll(Groups(c.merged)), Groups(c.merged), S); }
  }

  lemma DeliveredSome(s: State, k: Key)
    requires k in s.sessions && Delivered(s, k)
    ensures multiset(s.sessions[k].merged) <= multiset(s.sessions[k].served)
  {
  }

  lemma {:induction false} Accounts(run: seq<State>, i: nat, k: Key, S: set<Frame>)
    requires RunFor(run, k, S) && i < |run| && k in run[i].sessions
    ensures Balanced(run[i], k) && Delivered(run[i], k)
  {
    RunKeepsAccounts(run, k, S, i);
    hide RunFor, Balanced, Delivered;
  }

  lemma {:induction false} InCall(run: seq<State>, i: nat, k: Key, S: set<Frame>)
    requires Run(run, S) && i < |run| && k in run[i].sessions
    ensures GoodSession(run[i], k, S)
    ensures var c := run[i].sessions[k];
      && GroupsIn(Groups(c.merged), S) && c.tree == MergeAll(BuildAll(Groups(c.merged)))
      && forall j | 0 <= j < |Groups(c.merged)| :: BuildAll(Groups(c.merged))[j] == Build(Groups(c.merged)[j])
  {
    RunKeepsSane(run, S, i);
    hide Run, Build, MergeAll;
    assert Sane(run[i], S);
    assert GoodSession(run[i], k, S);
  }

  lemma {:induction false} MergedOnce(s: State, k: Key, S: set<Frame>)
    requires k in s.sessions && GoodSession(s, k, S) && Balanced(s, k) && Delivered(s, k)
    requires s.sessions[k].finished >= s.size
    ensures multiset(s.sessions[k].merged) == multiset(s.sessions[k].served)
    ensures forall p: nat | p < s.size :: MergedFrom(s.sessions[k].merged, p) == if p == k.rank then 0 else 1
    ensures forall j | 0 <= j < |s.wire| :: Owner(s.wire[j]) != k
  {
    hide MergeAll, Build;
    var c := s.sessions[k];
    TrafficSplits(s.wire, k);
    TallyNone(s.wire, Traffic(k));
    FlyingNone(s.wire, k);
    hide Flying;
    forall p: nat | p < s.size ensures MergedFrom(c.merged, p) == if p == k.rank then 0 else 1 {
      assert Account(s, k, p) == if p == k.rank then 0 else 1;
      TallyLess(s.wire, Between(k, p), Traffic(k));
      DroppedNone(c.dropped, p);
      if c.phase.Sending? { UnaskedTotal(s.size, k.rank, c.phase.next); }
    }
  }

  lemma DroppedNone(dropped: seq<nat>, p: nat)
    requires |dropped| == 0
    ensures DroppedBy(dropped, p) == 0
  {
  }

  /** `getGlobalCallStacks`: on coherent frames and whatever tags are drawn, one build over the local stacks and
      then those merged so far, in order of arrival. On a quiet tag these are among those the peers served. */
  lemma {:induction false} GlobalCallStacks(run: seq<State>, i: nat, k: Key, local: Stacks, S: set<Frame>)
    requires Coherent(S) && Run(run, S) && i < |run| && k in run[i].sessions && StacksIn(local, S)
    ensures var c := run[i].sessions[k];
      && Merge(Build(local), c.tree) == Build(local + Concat(Groups(c.merged)))
      && (RunFor(run, k, S) ==> multiset(c.merged) <= multiset(c.served))
  {
    hide *;
    InCall(run, i, k, S);
    if RunFor(run, k, S) { Conservation(run, i, k, S); }
    var c := run[i].sessions[k];
    GlobalIsBuild(local, BuildAll(Groups(c.merged)), Groups(c.merged), S);
  }

  /** Whatever tags are drawn, a monitor never takes a reply for a request, and a requester can read every
      message it probes for. */
  lemma {:induction false} NoConfusion(run: seq<State>, i: nat, j: nat, S: set<Frame>)
    requires Run(run, S) && i < |run| && j < |run[i].wire|
    ensures var m := run[i].wire[j];
      && (m.tag == REQUEST_TAG ==> m.body.Ask?)
      && (TAG_MIN <= m.tag ==>
          m.body.Answer? && Sendable(m.body.origin, S) && m.body.data == Encode(Build(m.body.origin)))
  {
    RunKeepsSane(run, S, i);
    assert Sane(run[i], S);
    assert GoodMessage(run[i], run[i].wire[j], S);
  }

  /** The tree read from a reply is the tree that was packed, whichever stacks it was built from. */
  lemma {:induction false} ReplyDetermined(a: Stacks, b: Stacks, S: set<Frame>)
    requires Sendable(a, S) && Sendable(b, S) && Encode(Build(a)) == Encode(Build(b))
    ensures Build(a) == Build(b)
  {
    hide Encode, Build, Encodable, Sendable;
    assert Encodable(Build(a)) && Encodable(Build(b)) by { SendableEncodable(a, S); SendableEncodable(b, S); }
    assert Encode(Build(a)) + [] == Encode(Build(b)) + [];
    EncodePrefixFree(Build(a), Build(b), [], []);
  }

  lemma SendableEncodable(a: Stacks, S: set<Frame>)
    requires Sendable(a, S)
    ensures Encodable(Build(a))
  {
  }

  // ---- Without the condition on tags ----

  /** `t` is reached from `s`, whatever tags are drawn. */
  ghost predicate Leads(s: State, t: State, S: set<Frame>) {
    exists run: seq<State> :: run != [] && run[0] == s && run[|run| - 1] == t
      && forall i | 0 <= i < |run| - 1 :: Next(run[i], run[i + 1], S)
  }

  lemma {:induction false} LeadsOn(s: State, t: State, step: Step, S: set<Frame>)
    requires Leads(s, t, S) && Enabled(t, step, S)
    ensures Leads(s, Apply(t, step, S), S)
  {
    assert Next(t, Apply(t, step, S), S);
    LeadsNext(s, t, Apply(t, step, S), S);
  }

  lemma {:induction false} LeadsNext(s: State, t: State, u: State, S: set<Frame>)
    requires Leads(s, t, S) && Next(t, u, S)
    ensures Leads(s, u, S)
  {
    hide Next;
    var run: seq<State> :| run != [] && run[0] == s && run[|run| - 1] == t
      && forall i | 0 <= i < |run| - 1 :: Next(run[i], run[i + 1], S);
    var r := run + [u];
    forall i | 0 <= i < |r| - 1 ensures Next(r[i], r[i + 1], S) {
      if i < |run| - 1 { assert Next(run[i], run[i + 1], S); }
    }
    assert r != [] && r[0] == s && r[|r| - 1] == u;
  }

  /** The state with one call, for three ranks. */
  ghost function With(wire: seq<Message>, k: Key, c: Session): State {
    State(3, wire, map[k := c])
  }

  /** Opening a call and asking both peers. */
  lemma {:induction false} AskBoth(s: State, t: State, k: Key, S: set<Frame>)
    requires k == Key(0, 2) && t.size == 3 && t.sessions.Keys <= {k} && (k in t.sessions ==> t.sessions[k].phase.Done?)
    requires Leads(s, t, S)
    ensures Leads(s, With(t.wire + [Message(0, 1, REQUEST_TAG, Ask(2)), Message(0, 2, REQUEST_TAG, Ask(2))], k,
                          Opened().(phase := Receiving)), S)
  {
    hide Leads;
    var w, o := t.wire, Opened();
    var a1, a2 := Message(0, 1, REQUEST_TAG, Ask(2)), Message(0, 2, REQUEST_TAG, Ask(2));
    LeadsOn(s, t, Start(k), S);
    assert Apply(t, Start(k), S) == With(w, k, o);
    LeadsOn(s, With(w, k, o), Send(k), S);
    assert w + [] == w;
    assert Apply(With(w, k, o), Send(k), S) == With(w, k, o.(phase := Sending(1)));
    LeadsOn(s, With(w, k, o.(phase := Sending(1))), Send(k), S);
    assert Apply(With(w, k, o.(phase := Sending(1))), Send(k), S) == With(w + [a1], k, o.(phase := Sending(2)));
    LeadsOn(s, With(w + [a1], k, o.(phase := Sending(2))), Send(k), S);
    assert w + [a1] + [a2] == w + [a1, a2];
    assert Apply(With(w + [a1], k, o.(phase := Sending(2))), Send(k), S)
      == With(w + [a1, a2], k, o.(phase := Sending(3)));
    LeadsOn(s, With(w + [a1, a2], k, o.(phase := Sending(3))), Begin(k), S);
    assert Apply(With(w + [a1, a2], k, o.(phase := Sending(3))), Begin(k), S)
      == With(w + [a1, a2], k, o.(phase := Receiving));
  }

  /** One thread with an empty stack. */
  ghost function Idle(): Stacks {
    [[]]
  }

  lemma IdleSendable(S: set<Frame>)
    ensures Sendable(Idle(), S)
  {
    assert Idle()[..0] == [];
    assert BuildKids(Idle()) == InsertKids(BuildKids(Idle()[..0]), []);
    assert Build(Idle()) == Node(1, EmptyFrame(), []);
    assert Encodable(Node(1, EmptyFrame(), []));
  }

  /** A call believed complete merged peer 1 twice and peer 2 never. */
  ghost predicate Miscounted(t: State, k: Key) {
    && k in t.sessions && t.sessions[k].phase == Done(true)
    && MergedFrom(t.sessions[k].merged, 1) == 2 && MergedFrom(t.sessions[k].merged, 2) == 0
  }

  /** A rank that draws a tag again while a late reply to it is in flight can count one peer twice,
      believe the collection complete, and miss another peer. */
  lemma {:induction false} ReusedTagMiscounts(S: set<Frame>)
    ensures exists s, t :: Init(s) && Leads(s, t, S) && Miscounted(t, Key(0, 2))
  {
    hide Leads, Encode, Build, Sendable, Merge, Idle;
    IdleSendable(S);
    var k, g := Key(0, 2), Idle();
    var a1, a2 := Message(0, 1, REQUEST_TAG, Ask(2)), Message(0, 2, REQUEST_TAG, Ask(2));
    var r1 := Message(1, 0, 2, Answer(Encode(Build(g)), g));
    var s := State(3, [], map[]);
    assert Leads(s, s, S) by { LeadsSelf(s, S); }
    var o := Opened().(phase := Receiving);
    AskBoth(s, s, k, S);
    assert [] + [a1, a2] == [a1, a2];
    LateReply(s, k, o, a1, a2, r1, g, S);
    AskBoth(s, With([r1], k, o.(phase := Done(false), served := [Contribution(1, g)], dropped := [2])), k, S);
    assert [r1] + [a1, a2] == [r1, a1, a2];
    CountTwice(s, k, o, a1, a2, r1, g, S);
  }

  lemma LeadsSelf(s: State, S: set<Frame>)
    ensures Leads(s, s, S)
  {
    assert [s][0] == s;
  }

  /** Peer 1 replies, peer 2 has no threads, and the call gives up before the reply arrives. */
  lemma {:induction false} LateReply(s: State, k: Key, o: Session, a1: Message, a2: Message, r1: Message, g: Stacks,
                                     S: set<Frame>)
    requires k == Key(0, 2) && o == Opened().(phase := Receiving) && Sendable(g, S)
    requires a1 == Message(0, 1, REQUEST_TAG, Ask(2)) && a2 == Message(0, 2, REQUEST_TAG, Ask(2))
    requires r1 == Message(1, 0, 2, Answer(Encode(Build(g)), g)) && Leads(s, With([a1, a2], k, o), S)
    ensures Leads(s, With([r1], k, o.(phase := Done(false), served := [Contribution(1, g)], dropped := [2])), S)
  {
    hide Leads, Encode, Build, Sendable, Merge;
    var o1 := o.(served := [Contribution(1, g)]);
    assert [] + [Contribution(1, g)] == [Contribution(1, g)];
    LeadsOn(s, With([a1, a2], k, o), Serve(0, g), S);
    assert Remove([a1, a2], 0) + [r1] == [a2, r1];
    assert Apply(With([a1, a2], k, o), Serve(0, g), S) == With([a2, r1], k, o1);
    LeadsOn(s, With([a2, r1], k, o1), Drop(0), S);
    assert Remove([a2, r1], 0) == [r1] && [] + [2] == [2];
    assert Apply(With([a2, r1], k, o1), Drop(0), S) == With([r1], k, o1.(dropped := [2]));
    LeadsOn(s, With([r1], k, o1.(dropped := [2])), Timeout(k), S);
    assert Apply(With([r1], k, o1.(dropped := [2])), Timeout(k), S)
      == With([r1], k, o1.(phase := Done(false), dropped := [2]));
  }

  /** The second call takes the late reply, then the new one of the same peer. */
  lemma {:induction false} CountTwice(s: State, k: Key, o: Session, a1: Message, a2: Message, r1: Message, g: Stacks,
                                      S: set<Frame>)
    requires k == Key(0, 2) && o == Opened().(phase := Receiving) && Sendable(g, S) && Init(s)
    requires a1 == Message(0, 1, REQUEST_TAG, Ask(2)) && a2 == Message(0, 2, REQUEST_TAG, Ask(2))
    requires r1 == Message(1, 0, 2, Answer(Encode(Build(g)), g)) && Leads(s, With([r1, a1, a2], k, o), S)
    ensures exists s, t :: Init(s) && Leads(s, t, S) && Miscounted(t, k)
  {
    hide Leads, Encode, Build, Sendable, Merge, Encodable;
    SendableEncodable(g, S);
    var n, t1 := Contribution(1, g), Merge(o.tree, Build(g));
    var o1 := o.(finished := 2, tree := t1, merged := [n]);
    var o2 := o.(finished := 3, tree := Merge(t1, Build(g)), served := [n], merged := [n, n]);
    assert [] + [n] == [n];
    LeadsOn(s, With([r1, a1, a2], k, o), Receive(k, 0, Build(g)), S);
    assert Remove([r1, a1, a2], 0) == [a1, a2] && [] + [n] == [n];
    assert Apply(With([r1, a1, a2], k, o), Receive(k, 0, Build(g)), S) == With([a1, a2], k, o1);
    LeadsOn(s, With([a1, a2], k, o1), Serve(0, g), S);
    assert Remove([a1, a2], 0) + [r1] == [a2, r1];
    assert Apply(With([a1, a2], k, o1), Serve(0, g), S) == With([a2, r1], k, o1.(served := [n]));
    LeadsOn(s, With([a2, r1], k, o1.(served := [n])), Receive(k, 1, Build(g)), S);
    assert Remove([a2, r1], 1) == [a2] && [n] + [n] == [n, n];
    assert Apply(With([a2, r1], k, o1.(served := [n])), Receive(k, 1, Build(g)), S) == With([a2], k, o2);
    LeadsOn(s, With([a2], k, o2), Finish(k), S);
    var t := With([a2], k, o2.(phase := Done(true)));
    assert Apply(With([a2], k, o2), Finish(k), S) == t;
    MergedTwice(n);
    assert Miscounted(t, k);
  }

  lemma MergedTwice(n: Contribution)
    requires n.peer == 1
    ensures MergedFrom([n, n], 1) == 2 && MergedFrom([n, n], 2) == 0
  {
    assert [n, n][..1] == [n] && [n][..0] == [];
    assert MergedFrom([], 1) == 0 && MergedFrom([], 2) == 0;
    assert MergedFrom([n], 1) == 1 && MergedFrom([n], 2) == 0;
  }
}
