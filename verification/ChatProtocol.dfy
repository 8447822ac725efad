/** The chat server as atomic sections over a shared list of clients: what holds over every
    interleaving of the client threads. */
module ChatProtocol {
  import opened Common

  type Id = nat

  /** Where a client's thread is: its ClientManager is constructed, it has a nickname, it has
      announced itself, it is about to be destroyed, it is destroyed. */
  datatype Phase = Connected | Named | Chatting | Leaving | Gone

  /** A broadcast. */
  datatype Message = Joined(from: Id) | Said(from: Id, line: string) | Left(from: Id)

  /** What the server knows of one client: its nickname, the broadcasts it has received, and
      the lengths of the broadcast log when it was put on the list and taken off it. */
  datatype Client = Client(phase: Phase, name: Option<string>, received: seq<Message>,
                              joinedAt: nat, leftAt: nat)

  /** `chain` is the list from `first` on, `log` the sequence of all broadcasts. */
  datatype Chat = Chat(chain: seq<Id>, clients: map<Id, Client>, log: seq<Message>)

  // ----- strcmpi

  function Lower(c: char): char {
    if 'A' <= c <= 'Z' then c - 'A' + 'a' else c
  }

  function Fold(s: string): string {
    if s == "" then "" else [Lower(s[0])] + Fold(s[1..])
  }

  predicate SameName(a: string, b: string) {
    Fold(a) == Fold(b)
  }

  /** The same character, or the capital and the small form of one letter. */
  predicate SameLetter(x: char, y: char) {
    || x == y
    || ('A' <= x <= 'Z' && y as int == x as int + 32)
    || ('A' <= y <= 'Z' && x as int == y as int + 32)
  }

  lemma LowerMeans(x: char, y: char)
    ensures Lower(x) == Lower(y) <==> SameLetter(x, y)
  {
  }

  lemma {:induction false} FoldAt(s: string)
    ensures |Fold(s)| == |s| && forall i :: 0 <= i < |s| ==> Fold(s)[i] == Lower(s[i])
  {
    if s != "" {
      FoldAt(s[1..]);
    }
  }

  /** Names are the same exactly if they are, character by character, upper and lower case ignored. */
  lemma SameNameMeans(a: string, b: string)
    ensures SameName(a, b) <==> |a| == |b| && forall i :: 0 <= i < |a| ==> SameLetter(a[i], b[i])
  {
    FoldAt(a);
    FoldAt(b);
    if |a| == |b| {
      forall i | 0 <= i < |a|
        ensures Fold(a)[i] == Fold(b)[i] <==> SameLetter(a[i], b[i])
      {
        LowerMeans(a[i], b[i]);
      }
      if forall i :: 0 <= i < |a| ==> SameLetter(a[i], b[i]) {
        assert Fold(a) == Fold(b);
      } else {
        var i :| 0 <= i < |a| && !SameLetter(a[i], b[i]);
        assert Fold(a)[i] != Fold(b)[i];
      }
    }
  }

  // ----- the atomic sections

  /** ClientManager::ClientManager */
  function Connect(s: Chat, c: Id): Chat {
    s.(chain := [c] + s.chain, clients := s.clients[c := Client(Connected, None, [], |s.log|, 0)])
  }

  /** The name is used by a client on the list. */
  predicate Taken(s: Chat, name: string) {
    exists d :: d in s.chain && d in s.clients && s.clients[d].name.Some? && SameName(name, s.clients[d].name.value)
  }

  /** ClientManager::ApplyName */
  function ApplyName(s: Chat, c: Id, name: string): Chat
    requires c in s.clients
  {
    if Taken(s, name) then s.(clients := s.clients[c := s.clients[c].(phase := Leaving)])
    else s.(clients := s.clients[c := s.clients[c].(phase := Named, name := Some(name))])
  }

  /** ClientManager::BroadcastMsg, with the phase that the sender enters by it. */
  function Broadcast(s: Chat, m: Message, phase: Phase): Chat
    requires m.from in s.clients
  {
    s.(log := s.log + [m],
       clients := map d | d in s.clients ::
         var received := if d in s.chain then s.clients[d].received + [m] else s.clients[d].received;
         s.clients[d].(received := received, phase := if d == m.from then phase else s.clients[d].phase))
  }

  function Without(chain: seq<Id>, c: Id): seq<Id> {
    if chain == [] then []
    else if chain[0] == c then chain[1..]
    else [chain[0]] + Without(chain[1..], c)
  }

  /** ClientManager::~ClientManager */
  function Disconnect(s: Chat, c: Id): Chat
    requires c in s.clients
  {
    s.(chain := Without(s.chain, c), clients := s.clients[c := s.clients[c].(phase := Gone, leftAt := |s.log|)])
  }

  /** What a client's thread does next. */
  datatype Action =
    | Start(c: Id)
    | HangUp(c: Id)
    | Apply(c: Id, name: string)
    | Announce(c: Id)
    | Say(c: Id, line: string)
    | Quit(c: Id)
    | Destroy(c: Id)

  /** The order of the sections in the thread of a client (ChatServer and Server). */
  predicate Enabled(s: Chat, a: Action) {
    if a.Start? then a.c !in s.clients
    else
      && a.c in s.clients
      && match a
         case HangUp(c) => s.clients[c].phase == Connected
         case Apply(c, _) => s.clients[c].phase == Connected
         case Announce(c) => s.clients[c].phase == Named
         case Say(c, _) => s.clients[c].phase == Chatting
         case Quit(c) => s.clients[c].phase == Chatting
         case Destroy(c) => s.clients[c].phase == Leaving
         case _ => false
  }

  function Step(s: Chat, a: Action): Chat
    requires Enabled(s, a)
  {
    match a
    case Start(c) => Connect(s, c)
    case HangUp(c) => s.(clients := s.clients[c := s.clients[c].(phase := Leaving)])
    case Apply(c, name) => ApplyName(s, c, name)
    case Announce(c) => Broadcast(s, Joined(c), Chatting)
    case Say(c, line) => Broadcast(s, Said(c, line), Chatting)
    case Quit(c) => Broadcast(s, Left(c), Leaving)
    case Destroy(c) => Disconnect(s, c)
  }

  ghost predicate IsRun(ss: seq<Chat>, actions: seq<Action>) {
    && |ss| == |actions| + 1
    && ss[0] == Chat([], map[], [])
    && forall i :: 0 <= i < |actions| ==> Enabled(ss[i], actions[i]) && ss[i + 1] == Step(ss[i], actions[i])
  }

  // ----- the list

  /** The list holds exactly the clients that are not destroyed, each once. */
  ghost predicate ListInv(s: Chat) {
    && (forall i, j :: 0 <= i < j < |s.chain| ==> s.chain[i] != s.chain[j])
    && (forall c :: c in s.chain <==> c in s.clients && s.clients[c].phase != Gone)
  }

  /** The position of c, if it is on the list. */
  function Position(chain: seq<Id>, c: Id): (k: nat)
    requires c in chain
    ensures k < |chain| && chain[k] == c
  {
    if chain[0] == c then 0 else 1 + Position(chain[1..], c)
  }

  /** Unlinking keeps the order of the others. */
  lemma {:induction false} WithoutCuts(chain: seq<Id>, c: Id)
    requires c in chain
    ensures var k := Position(chain, c); Without(chain, c) == chain[..k] + chain[k + 1..]
  {
    if chain[0] != c {
      WithoutCuts(chain[1..], c);
      var k := Position(chain[1..], c);
      assert chain[..k + 1] == [chain[0]] + chain[1..][..k];
      assert chain[k + 2..] == chain[1..][k + 1..];
    }
  }

  /** A list without the element at one position. */
  lemma CutOne(chain: seq<Id>, k: nat)
    requires k < |chain| && forall i, j :: 0 <= i < j < |chain| ==> chain[i] != chain[j]
    ensures var r := chain[..k] + chain[k + 1..];
      && (forall i, j :: 0 <= i < j < |r| ==> r[i] != r[j])
      && (forall d :: d in r <==> d in chain && d != chain[k])
  {
    var r := chain[..k] + chain[k + 1..];
    assert forall i {:trigger r[i]} :: 0 <= i < |r| ==> r[i] == chain[if i < k then i else i + 1];
    forall d | d in chain && d != chain[k]
      ensures d in r
    {
      var i :| 0 <= i < |chain| && chain[i] == d;
      assert r[if i < k then i else i - 1] == d;
    }
  }

  lemma WithoutOne(chain: seq<Id>, c: Id)
    requires forall i, j :: 0 <= i < j < |chain| ==> chain[i] != chain[j]
    requires c in chain
    ensures var r := Without(chain, c);
      && (forall i, j :: 0 <= i < j < |r| ==> r[i] != r[j])
      && (forall d :: d in r <==> d in chain && d != c)
  {
    WithoutCuts(chain, c);
    CutOne(chain, Position(chain, c));
  }

  lemma StepKeepsList(s: Chat, a: Action)
    requires ListInv(s) && Enabled(s, a)
    ensures ListInv(Step(s, a))
  {
    if a.Destroy? {
      WithoutOne(s.chain, a.c);
    }
  }

  // ----- nicknames

  /** Two clients on the list never share a nickname, upper and lower case ignored. */
  ghost predicate NameInv(s: Chat) {
    forall c, d :: c in s.chain && d in s.chain && c != d && c in s.clients && d in s.clients
                   && s.clients[c].name.Some? && s.clients[d].name.Some?
                   ==> !SameName(s.clients[c].name.value, s.clients[d].name.value)
  }

  /** A client has a nickname from ApplyName on. */
  ghost predicate PhaseInv(s: Chat) {
    forall c :: c in s.clients ==>
      && (s.clients[c].phase == Connected ==> s.clients[c].name == None)
      && (s.clients[c].phase in {Named, Chatting} ==> s.clients[c].name.Some?)
  }

  lemma ApplyKeepsNames(s: Chat, c: Id, name: string)
    requires ListInv(s) && NameInv(s) && PhaseInv(s) && Enabled(s, Apply(c, name))
    ensures NameInv(ApplyName(s, c, name)) && PhaseInv(ApplyName(s, c, name))
  {
  }

  lemma StepKeepsNames(s: Chat, a: Action)
    requires ListInv(s) && NameInv(s) && PhaseInv(s) && Enabled(s, a)
    ensures NameInv(Step(s, a)) && PhaseInv(Step(s, a))
  {
    if a.Destroy? {
      WithoutOne(s.chain, a.c);
    } else if a.Apply? {
      ApplyKeepsNames(s, a.c, a.name);
    }
  }

  // ----- broadcasts

  /** The end of the part of the log that a client receives. */
  function Until(s: Chat, c: Id): nat
    requires c in s.clients
  {
    if s.clients[c].phase == Gone then s.clients[c].leftAt else |s.log|
  }

  /** A client has received exactly the broadcasts made while it was on the list. */
  ghost predicate SliceOf(s: Chat, c: Id)
    requires c in s.clients
  {
    && s.clients[c].joinedAt <= Until(s, c) <= |s.log|
    && s.clients[c].received == s.log[s.clients[c].joinedAt..Until(s, c)]
  }

  ghost predicate SliceInv(s: Chat) {
    forall c :: c in s.clients ==> SliceOf(s, c)
  }

  lemma BroadcastKeepsSlice(s: Chat, m: Message, phase: Phase, c: Id)
    requires m.from in s.clients && c in s.clients && SliceOf(s, c)
    requires (c in s.chain <==> s.clients[c].phase != Gone) && (c == m.from ==> s.clients[c].phase != Gone)
    requires phase != Gone
    ensures SliceOf(Broadcast(s, m, phase), c)
  {
    LongerSlices(s.log, m, s.clients[c].joinedAt, Until(s, c));
  }

  lemma StepKeepsSlices(s: Chat, a: Action)
    requires ListInv(s) && SliceInv(s) && Enabled(s, a)
    ensures SliceInv(Step(s, a))
  {
    forall c | c in Step(s, a).clients
      ensures SliceOf(Step(s, a), c)
    {
      if c in s.clients {
        assert SliceOf(s, c) && (c in s.chain <==> s.clients[c].phase != Gone);
        match a {
          case Announce(d) => BroadcastKeepsSlice(s, Joined(d), Chatting, c);
          case Say(d, line) => BroadcastKeepsSlice(s, Said(d, line), Chatting, c);
          case Quit(d) => BroadcastKeepsSlice(s, Left(d), Leaving, c);
          case _ =>
        }
      }
    }
  }

  lemma LongerSlices(log: seq<Message>, m: Message, from: nat, to: nat)
    requires from <= to <= |log|
    ensures (log + [m])[from..to] == log[from..to]
    ensures (log + [m])[from..|log| + 1] == log[from..|log|] + [m]
  {
  }

  // ----- the life of a client in the log

  function SentBy(log: seq<Message>, c: Id): seq<Message> {
    if log == [] then []
    else SentBy(log[..|log| - 1], c) + if log[|log| - 1].from == c then [log[|log| - 1]] else []
  }

  /** Joined, then lines, then possibly Left. */
  ghost predicate IsLife(sent: seq<Message>, c: Id) {
    && (|sent| > 0 ==> sent[0] == Joined(c))
    && (forall i :: 0 < i < |sent| ==> sent[i] != Joined(c))
    && (forall i :: 0 <= i < |sent| - 1 ==> !sent[i].Left?)
  }

  /** Who has spoken has announced itself, and who has left has not spoken since. */
  ghost predicate LifeOf(s: Chat, c: Id) {
    var sent := SentBy(s.log, c);
    && IsLife(sent, c)
    && (c !in s.clients || s.clients[c].phase in {Connected, Named} ==> sent == [])
    && (c in s.clients && s.clients[c].phase == Chatting ==> sent != [] && !sent[|sent| - 1].Left?)
  }

  ghost predicate LifeInv(s: Chat) {
    forall c :: LifeOf(s, c)
  }

  lemma LifeGoesOn(log: seq<Message>, m: Message, c: Id)
    requires IsLife(SentBy(log, c), c)
    requires m.from == c ==>
      var sent := SentBy(log, c);
      if m.Joined? then sent == [] else sent != [] && !sent[|sent| - 1].Left?
    ensures SentBy(log + [m], c) == SentBy(log, c) + if m.from == c then [m] else []
    ensures IsLife(SentBy(log + [m], c), c)
  {
    assert (log + [m])[..|log|] == log;
  }

  /** One more message of a client that may speak. */
  lemma BroadcastKeepsLife(s: Chat, m: Message, phase: Phase, c: Id)
    requires m.from in s.clients && LifeOf(s, c)
    requires s.clients[m.from].phase == if m.Joined? then Named else Chatting
    requires phase == if m.Left? then Leaving else Chatting
    ensures LifeOf(Broadcast(s, m, phase), c)
  {
    LifeGoesOn(s.log, m, c);
  }

  lemma StepKeepsLife(s: Chat, a: Action, c: Id)
    requires LifeOf(s, c) && Enabled(s, a)
    ensures LifeOf(Step(s, a), c)
  {
    match a {
      case Announce(d) => BroadcastKeepsLife(s, Joined(d), Chatting, c);
      case Say(d, line) => BroadcastKeepsLife(s, Said(d, line), Chatting, c);
      case Quit(d) => BroadcastKeepsLife(s, Left(d), Leaving, c);
      case _ => assert Step(s, a).log == s.log;
    }
  }

  lemma StepKeepsLives(s: Chat, a: Action)
    requires LifeInv(s) && Enabled(s, a)
    ensures LifeInv(Step(s, a))
  {
    forall c
      ensures LifeOf(Step(s, a), c)
    {
      assert LifeOf(s, c);
      StepKeepsLife(s, a, c);
    }
  }

  // ----- every run

  ghost predicate Inv(s: Chat) {
    ListInv(s) && NameInv(s) && PhaseInv(s) && SliceInv(s) && LifeInv(s)
  }

  /** What every section keeps. */
  lemma StepKeepsInv(s: Chat, a: Action)
    requires Inv(s) && Enabled(s, a)
    ensures Inv(Step(s, a))
  {
    StepKeepsList(s, a);
    StepKeepsNames(s, a);
    StepKeepsSlices(s, a);
    StepKeepsLives(s, a);
  }

  lemma {:induction false} RunKeepsInv(ss: seq<Chat>, actions: seq<Action>, i: nat)
    requires IsRun(ss, actions) && i < |ss|
    ensures Inv(ss[i])
    decreases i
  {
    if i > 0 {
      RunKeepsInv(ss, actions, i - 1);
      var s, a := ss[i - 1], actions[i - 1];
      StepKeepsInv(s, a);
      assert ss[i - 1 + 1] == Step(s, a);
    }
  }

  /** In every reachable state the nicknames of two clients on the list have different lengths, or
      differ in a character by more than upper and lower case. */
  lemma NicknamesDiffer(ss: seq<Chat>, actions: seq<Action>, i: nat, c: Id, d: Id)
    requires IsRun(ss, actions) && i < |ss| && c in ss[i].chain && d in ss[i].chain && c != d
    ensures var s := ss[i];
      && c in s.clients && d in s.clients
      && (s.clients[c].name.Some? && s.clients[d].name.Some? ==>
            var a, b := s.clients[c].name.value, s.clients[d].name.value;
            |a| != |b| || exists k :: 0 <= k < |a| && !SameLetter(a[k], b[k]))
  {
    RunKeepsInv(ss, actions, i);
    var s := ss[i];
    if s.clients[c].name.Some? && s.clients[d].name.Some? {
      SameNameMeans(s.clients[c].name.value, s.clients[d].name.value);
    }
  }

  /** A run can begin, and go on with everything that a thread is about to do. */
  lemma RunGoesOn(ss: seq<Chat>, actions: seq<Action>, a: Action)
    ensures IsRun([Chat([], map[], [])], [])
    ensures IsRun(ss, actions) && Enabled(ss[|actions|], a) ==>
      IsRun(ss + [Step(ss[|actions|], a)], actions + [a])
  {
    if IsRun(ss, actions) && Enabled(ss[|actions|], a) {
      var ss', actions' := ss + [Step(ss[|actions|], a)], actions + [a];
      forall i | 0 <= i < |actions'|
        ensures Enabled(ss'[i], actions'[i]) && ss'[i + 1] == Step(ss'[i], actions'[i])
      {
        if i < |actions| {
          assert Enabled(ss[i], actions[i]) && ss[i + 1] == Step(ss[i], actions[i]);
        }
      }
    }
  }

  /** In every reachable state the list holds each client whose ClientManager lives exactly once. */
  lemma ListHoldsLive(ss: seq<Chat>, actions: seq<Action>, i: nat, c: Id)
    requires IsRun(ss, actions) && i < |ss|
    ensures c in ss[i].chain <==> c in ss[i].clients && ss[i].clients[c].phase != Gone
    ensures forall j, k :: 0 <= j < k < |ss[i].chain| ==> ss[i].chain[j] != ss[i].chain[k]
  {
    RunKeepsInv(ss, actions, i);
  }

  /** In every reachable state a client has received the broadcasts between its construction and its
      destruction, or up to now. */
  lemma ReceivedIsSlice(ss: seq<Chat>, actions: seq<Action>, i: nat, c: Id)
    requires IsRun(ss, actions) && i < |ss| && c in ss[i].clients
    ensures var s, x := ss[i], ss[i].clients[c];
      var end := if x.phase == Gone then x.leftAt else |s.log|;
      x.joinedAt <= end <= |s.log| && x.received == s.log[x.joinedAt..end]
  {
    RunKeepsInv(ss, actions, i);
    assert SliceOf(ss[i], c);
  }

  /** In every reachable state the broadcasts of a client begin with its joining, of which there is no
      other, and nothing follows its leaving. */
  lemma LivesInOrder(ss: seq<Chat>, actions: seq<Action>, i: nat, c: Id)
    requires IsRun(ss, actions) && i < |ss|
    ensures var sent := SentBy(ss[i].log, c);
      forall k :: 0 <= k < |sent| ==>
        && (sent[k] == Joined(c) <==> k == 0)
        && (sent[k].Left? ==> k == |sent| - 1)
  {
    RunKeepsInv(ss, actions, i);
    assert LifeOf(ss[i], c);
  }

  // ----- the log, the times and the names of a run

  /** What an action broadcasts. */
  function Spoken(a: Action): seq<Message> {
    match a
    case Announce(c) => [Joined(c)]
    case Say(c, line) => [Said(c, line)]
    case Quit(c) => [Left(c)]
    case _ => []
  }

  function AllSpoken(actions: seq<Action>): seq<Message> {
    if actions == [] then [] else AllSpoken(actions[..|actions| - 1]) + Spoken(actions[|actions| - 1])
  }

  /** The log of every run is what its actions have broadcast, in their order. */
  lemma {:induction false} LogIsSpoken(ss: seq<Chat>, actions: seq<Action>, i: nat)
    requires IsRun(ss, actions) && i < |ss|
    ensures ss[i].log == AllSpoken(actions[..i])
    decreases i
  {
    if i > 0 {
      LogIsSpoken(ss, actions, i - 1);
      assert actions[..i][..i - 1] == actions[..i - 1];
      assert ss[i - 1 + 1] == Step(ss[i - 1], actions[i - 1]);
    }
  }

  /** A client has received the broadcasts since the step at which its thread has started. */
  lemma {:induction false} JoinedAtStart(ss: seq<Chat>, actions: seq<Action>, k: nat, i: nat)
    requires IsRun(ss, actions) && k < i < |ss| && actions[k].Start?
    ensures var c := actions[k].c; c in ss[i].clients && ss[i].clients[c].joinedAt == |ss[k].log|
    decreases i
  {
    assert ss[i - 1 + 1] == Step(ss[i - 1], actions[i - 1]);
    if k < i - 1 {
      JoinedAtStart(ss, actions, k, i - 1);
    }
  }

  /** A client that has been destroyed has received none since. */
  lemma {:induction false} LeftAtEnd(ss: seq<Chat>, actions: seq<Action>, k: nat, i: nat)
    requires IsRun(ss, actions) && k < i < |ss| && actions[k].Destroy?
    ensures var c := actions[k].c;
      c in ss[i].clients && ss[i].clients[c].phase == Gone && ss[i].clients[c].leftAt == |ss[k].log|
    decreases i
  {
    assert ss[i - 1 + 1] == Step(ss[i - 1], actions[i - 1]);
    if k < i - 1 {
      LeftAtEnd(ss, actions, k, i - 1);
    }
  }

  /** A nickname is given exactly if no client on the list has the same one; a client that does not
      get it is to be disconnected. */
  lemma NameIsGiven(ss: seq<Chat>, actions: seq<Action>, k: nat)
    requires IsRun(ss, actions) && k < |actions| && actions[k].Apply?
    ensures var s, t, c, name := ss[k], ss[k + 1], actions[k].c, actions[k].name;
      && c in t.clients
      && if (exists d :: d in s.chain && d in s.clients && s.clients[d].name.Some?
                         && SameName(name, s.clients[d].name.value))
         then t.clients[c].name == None && t.clients[c].phase == Leaving
         else t.clients[c].name == Some(name) && t.clients[c].phase == Named
  {
    RunKeepsInv(ss, actions, k);
    assert ss[k + 1] == Step(ss[k], actions[k]);
  }

  lemma StepKeepsName(s: Chat, a: Action, c: Id)
    requires PhaseInv(s) && Enabled(s, a) && c in s.clients && s.clients[c].name.Some?
    ensures c in Step(s, a).clients && Step(s, a).clients[c].name == s.clients[c].name
  {
    assert s.clients[c].phase != Connected;
  }

  /** A nickname never changes. */
  lemma {:induction false} NameIsKept(ss: seq<Chat>, actions: seq<Action>, k: nat, i: nat, c: Id)
    requires IsRun(ss, actions) && k <= i < |ss| && c in ss[k].clients && ss[k].clients[c].name.Some?
    ensures c in ss[i].clients && ss[i].clients[c].name == ss[k].clients[c].name
    decreases i
  {
    if k < i {
      NameIsKept(ss, actions, k, i - 1, c);
      RunKeepsInv(ss, actions, i - 1);
      StepKeepsName(ss[i - 1], actions[i - 1], c);
      assert ss[i - 1 + 1] == Step(ss[i - 1], actions[i - 1]);
    }
  }

  /** In every reachable state two clients have received the messages that were broadcast
      while both were on the list in the same order, without gaps. */
  lemma CommonMessagesAgree(ss: seq<Chat>, actions: seq<Action>, i: nat, c: Id, d: Id, lo: nat, hi: nat)
    requires IsRun(ss, actions) && i < |ss| && c in ss[i].clients && d in ss[i].clients
    requires var s := ss[i];
      && s.clients[c].joinedAt <= lo <= hi <= Until(s, c)
      && s.clients[d].joinedAt <= lo <= hi <= Until(s, d)
    ensures var x, y := ss[i].clients[c], ss[i].clients[d];
      && hi - x.joinedAt <= |x.received| && hi - y.joinedAt <= |y.received|
      && x.received[lo - x.joinedAt..hi - x.joinedAt] == y.received[lo - y.joinedAt..hi - y.joinedAt]
      && hi <= |ss[i].log| && x.received[lo - x.joinedAt..hi - x.joinedAt] == ss[i].log[lo..hi]
  {
    RunKeepsInv(ss, actions, i);
    var s := ss[i];
    WindowOfSlice(s.log, s.clients[c].joinedAt, Until(s, c), lo, hi);
    WindowOfSlice(s.log, s.clients[d].joinedAt, Until(s, d), lo, hi);
  }

  lemma WindowOfSlice(log: seq<Message>, from: nat, to: nat, lo: nat, hi: nat)
    requires from <= lo <= hi <= to <= |log|
    ensures log[from..to][lo - from..hi - from] == log[lo..hi]
  {
    var a, b := log[from..to][lo - from..hi - from], log[lo..hi];
    assert |a| == |b| && forall i :: 0 <= i < |a| ==> a[i] == b[i];
  }
}
