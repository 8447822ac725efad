/** chatsrv.cpp: the linked list of clients. Each method is what a thread does while it holds
    the critical section; its effect is a step of the protocol. */
module ChatList {
  import opened Common
  import opened ChatProtocol

  class ClientManager {
    const id: Id
    var next: ClientManager?
    var name: Option<string>
    /** The broadcasts written to the client's connection. */
    var inbox: seq<Message>

    constructor (id: Id, next: ClientManager?)
      ensures this.id == id && this.next == next && name == None && inbox == []
    {
      this.id, this.next, name, inbox := id, next, None, [];
    }
  }

  function NodeAt(nodes: seq<ClientManager>, i: nat): ClientManager? {
    if i < |nodes| then nodes[i] else null
  }

  function Ids(nodes: seq<ClientManager>): (ids: seq<Id>)
    ensures |ids| == |nodes|
  {
    seq(|nodes|, i requires 0 <= i < |nodes| => nodes[i].id)
  }

  /** The static members, with the list and the protocol state they stand for. */
  class Server {
    var first: ClientManager?
    ghost var nodes: seq<ClientManager>
    ghost var chat: Chat

    ghost predicate Linked()
      reads this, nodes
    {
      && first == NodeAt(nodes, 0)
      && (forall i {:trigger nodes[i].next} :: 0 <= i < |nodes| ==> nodes[i].next == NodeAt(nodes, i + 1))
    }

    /** A client on the list is as the protocol state says. */
    ghost predicate Mirrors(cm: ClientManager)
      reads this, cm
    {
      cm.id in chat.clients && cm.name == chat.clients[cm.id].name && cm.inbox == chat.clients[cm.id].received
    }

    ghost predicate Valid()
      reads this, nodes
    {
      && Linked() && chat.chain == Ids(nodes)
      && (forall i, j :: 0 <= i < j < |nodes| ==> nodes[i].id != nodes[j].id)
      && (forall cm | cm in nodes :: Mirrors(cm))
    }

    constructor ()
      ensures Valid() && chat == Chat([], map[], []) && nodes == []
    {
      first, nodes, chat := null, [], Chat([], map[], []);
    }

    /** ClientManager::ClientManager */
    method Insert(id: Id) returns (cm: ClientManager)
      requires Valid() && id !in chat.clients
      modifies this
      ensures Valid() && fresh(cm) && cm.id == id && nodes == [cm] + old(nodes)
      ensures chat == Connect(old(chat), id)
    {
      cm := new ClientManager(id, first);
      first := cm;
      nodes := [cm] + nodes;
      chat := Connect(chat, id);
      forall o | o in nodes
        ensures o == cm || o in old(nodes)
      {
      }
      forall i, j | 0 <= i < j < |nodes|
        ensures nodes[i].id != nodes[j].id
      {
        assert nodes[j] == old(nodes)[j - 1] && nodes[j] in old(nodes);
      }
    }

    /** ClientManager::~ClientManager */
    method Unlink(cm: ClientManager, ghost k: nat)
      requires Valid() && k < |nodes| && nodes[k] == cm && cm in nodes
      modifies this, nodes
      ensures Valid() && nodes == old(nodes[..k] + nodes[k + 1..])
      ensures chat == Disconnect(old(chat), cm.id)
    {
      assert cm in nodes;
      ghost var was := nodes;
      CutIds(chat.chain, nodes, k);
      UnlinkNode(cm, k);
      chat := Disconnect(chat, cm.id);
      forall o | o in nodes
        ensures Mirrors(o)
      {
        assert o in was && o.id != cm.id;
      }
    }

    /** The pointer part of the destructor. */
    method UnlinkNode(cm: ClientManager, ghost k: nat)
      requires Linked() && k < |nodes| && nodes[k] == cm
      requires forall i, j :: 0 <= i < j < |nodes| ==> nodes[i].id != nodes[j].id
      modifies `first, `nodes, (set o | o in nodes)`next
      ensures Linked() && nodes == old(nodes[..k] + nodes[k + 1..])
    {
      if first == cm {
        first := cm.next;
      } else {
        var prior := first;
        ghost var i: nat := 0;
        while prior.next != cm
          invariant i < k && prior == nodes[i]
          decreases k - i
        {
          i := i + 1;
          prior := prior.next;
        }
        assert nodes[i + 1] == cm;
        prior.next := cm.next;
      }
      ghost var orig := nodes;
      nodes := orig[..k] + orig[k + 1..];
      assert forall i {:trigger nodes[i]} :: 0 <= i < |nodes| ==> nodes[i] == orig[if i < k then i else i + 1];
    }

    /** The loop of BroadcastMsg. */
    method SendToAll(m: Message)
      requires Linked() && forall i, j :: 0 <= i < j < |nodes| ==> nodes[i].id != nodes[j].id
      modifies (set o | o in nodes)`inbox
      ensures forall j :: 0 <= j < |nodes| ==> nodes[j].inbox == old(nodes[j].inbox) + [m]
    {
      var cm := first;
      ghost var i: nat := 0;
      while cm != null
        invariant i <= |nodes| && cm == NodeAt(nodes, i)
        invariant forall j :: 0 <= j < i ==> nodes[j].inbox == old(nodes[j].inbox) + [m]
        invariant forall j :: i <= j < |nodes| ==> nodes[j].inbox == old(nodes[j].inbox)
        decreases |nodes| - i
      {
        cm.inbox := cm.inbox + [m];
        i := i + 1;
        cm := cm.next;
      }
    }

    /** ClientManager::BroadcastMsg */
    method BroadcastMsg(m: Message, ghost phase: Phase)
      requires Valid() && m.from in chat.clients
      modifies `chat, (set o | o in nodes)`inbox
      ensures Valid() && chat == Broadcast(old(chat), m, phase)
    {
      SendToAll(m);
      OnChain();
      chat := Broadcast(chat, m, phase);
      forall o | o in nodes
        ensures Mirrors(o)
      {
        var j :| 0 <= j < |nodes| && nodes[j] == o;
        assert old(Mirrors(o));
      }
    }

    /** The clients of the nodes are the clients on the protocol's list. */
    lemma OnChain()
      requires chat.chain == Ids(nodes)
      ensures forall cm | cm in nodes :: cm.id in chat.chain
      ensures forall d | d in chat.chain :: exists j :: 0 <= j < |nodes| && nodes[j].id == d
    {
      forall cm | cm in nodes
        ensures cm.id in chat.chain
      {
        var j :| 0 <= j < |nodes| && nodes[j] == cm;
        assert chat.chain[j] == cm.id;
      }
    }

    /** The loop of ApplyName: is the name used? */
    method FindName(namebuf: string) returns (found: bool)
      requires Valid()
      ensures found <==> Taken(chat, namebuf)
    {
      OnChain();
      var cm := first;
      ghost var i: nat := 0;
      while cm != null
        invariant i <= |nodes| && cm == NodeAt(nodes, i)
        invariant forall j :: 0 <= j < i ==> nodes[j].name == None || !SameName(namebuf, nodes[j].name.value)
        decreases |nodes| - i
      {
        if cm.name.Some? && SameName(namebuf, cm.name.value) {
          assert cm in nodes;
          return true;
        }
        i := i + 1;
        cm := cm.next;
      }
      forall d | d in chat.chain && d in chat.clients && chat.clients[d].name.Some?
        ensures !SameName(namebuf, chat.clients[d].name.value)
      {
        var j :| 0 <= j < |nodes| && nodes[j].id == d;
        assert nodes[j] in nodes;
      }
      return false;
    }

    /** ClientManager::ApplyName */
    method SetName(cm: ClientManager, namebuf: string) returns (ok: bool)
      requires Valid() && cm in nodes
      modifies `chat, cm`name
      ensures Valid() && chat == ApplyName(old(chat), cm.id, namebuf)
      ensures ok <==> !Taken(old(chat), namebuf)
    {
      var found := FindName(namebuf);
      if !found {
        cm.name := Some(namebuf);
      }
      chat := ApplyName(chat, cm.id, namebuf);
      ok := !found;
    }
  }

  /** Cutting a node out of the list is what the protocol's unlinking does. */
  lemma CutIds(chain: seq<Id>, nodes: seq<ClientManager>, k: nat)
    requires chain == Ids(nodes) && k < |nodes|
    requires forall i, j :: 0 <= i < j < |nodes| ==> nodes[i].id != nodes[j].id
    ensures Without(chain, nodes[k].id) == Ids(nodes[..k] + nodes[k + 1..])
  {
    assert chain[k] == nodes[k].id;
    WithoutCuts(chain, nodes[k].id);
    assert Position(chain, nodes[k].id) == k;
  }
}
