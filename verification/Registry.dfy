/** The connection registry of tcp-actor-server/src/registry.rs: an actor owning the live set, fed by a FIFO queue. */
module Registry {

  type Addr = nat

  datatype Cmd = Register(id: nat, addr: Addr) | Deregister(id: nat) | ActiveCount(query: nat)

  /** The ids the actor would hold after these commands. */
  function Replay(ids: set<nat>, cmds: seq<Cmd>): set<nat> {
    if cmds == [] then ids
    else
      var before := Replay(ids, cmds[..|cmds| - 1]);
      match cmds[|cmds| - 1]
      case Register(id, _) => before + {id}
      case Deregister(id) => before - {id}
      case ActiveCount(_) => before
  }

  /** Processing the front of the queue first, or the whole queue at once, comes to the same. */
  lemma {:induction false} ReplayFront(ids: set<nat>, cmds: seq<Cmd>)
    requires cmds != []
    ensures Replay(ids, cmds) == Replay(Replay(ids, cmds[..1]), cmds[1..])
    decreases |cmds|
  {
    var n := |cmds| - 1;
    if n > 0 {
      ReplayFront(ids, cmds[..n]);
      assert cmds[..n][..1] == cmds[..1];
      assert cmds[..n][1..] == cmds[1..][..n - 1];
      assert cmds[1..][n - 1] == cmds[n];
    } else {
      assert cmds[..1] == cmds;
    }
  }

  class Actor {
    var queue: seq<Cmd>
    var conns: map<nat, Addr>
    var replies: map<nat, nat>

    constructor ()
      ensures queue == [] && conns == map[] && replies == map[]
    {
      queue, conns, replies := [], map[], map[];
    }

    /** `Registry::guard`: enqueue the registration; the guard is the id. */
    method Guard(id: nat, addr: Addr)
      modifies this`queue
      ensures queue == old(queue) + [Register(id, addr)]
    {
      queue := queue + [Register(id, addr)];
    }

    /** `ConnGuard::drop`. */
    method Drop(id: nat)
      modifies this`queue
      ensures queue == old(queue) + [Deregister(id)]
    {
      queue := queue + [Deregister(id)];
    }

    /** `Registry::active_count`, up to the wait for its reply. */
    method Ask(query: nat)
      modifies this`queue
      ensures queue == old(queue) + [ActiveCount(query)]
    {
      queue := queue + [ActiveCount(query)];
    }

    /** One iteration of the actor loop. */
    method ProcessOne()
      requires queue != []
      modifies this
      ensures queue == old(queue)[1..]
      ensures conns.Keys == Replay(old(conns.Keys), old(queue)[..1])
      ensures conns == match old(queue)[0]
                       case Register(id, addr) => old(conns)[id := addr]
                       case Deregister(id) => old(conns) - {id}
                       case ActiveCount(_) => old(conns)
      ensures replies == match old(queue)[0]
                         case ActiveCount(q) => old(replies)[q := |old(conns)|]
                         case _ => old(replies)
    {
      var cmd := queue[0];
      assert queue[..1][..0] == [] && queue[..1][0] == cmd;
      queue := queue[1..];
      match cmd {
        case Register(id, addr) => conns := conns[id := addr];
        case Deregister(id) => conns := conns - {id};
        case ActiveCount(query) => replies := replies[query := |conns|];
      }
    }

    /** The actor loop while nobody sends: every queued count is answered with the size of the set at its place in the
        queue, and the set ends where the whole queue leads. */
    method Drain()
      requires Distinct(queue)
      modifies this
      ensures queue == [] && conns.Keys == Replay(old(conns.Keys), old(queue))
      ensures forall i :: 0 <= i < |old(queue)| && old(queue)[i].ActiveCount? ==>
                var q := old(queue)[i].query;
                q in replies && replies[q] == |Replay(old(conns.Keys), old(queue)[..i])|
    {
      ghost var all, ids := queue, conns.Keys;
      ghost var done := 0;
      while queue != []
        invariant done <= |all| && queue == all[done..]
        invariant conns.Keys == Replay(ids, all[..done])
        invariant forall i :: 0 <= i < done && all[i].ActiveCount? ==>
                    all[i].query in replies && replies[all[i].query] == |Replay(ids, all[..i])|
        decreases |queue|
      {
        assert |conns| == |conns.Keys|;
        assert queue[0] == all[done];
        assert Replay(conns.Keys, queue[..1]) == Replay(ids, all[..done + 1]) by {
          assert all[..done + 1][..done] == all[..done];
          assert queue[..1][..0] == [] && Replay(conns.Keys, []) == conns.Keys;
        }
        ProcessOne();
        done := done + 1;
      }
      assert all[..done] == all;
    }
  }

  /** Queries are numbered apart. */
  predicate Distinct(cmds: seq<Cmd>) {
    forall i, j :: 0 <= i < j < |cmds| && cmds[i].ActiveCount? && cmds[j].ActiveCount? ==>
        cmds[i].query != cmds[j].query
  }
}
