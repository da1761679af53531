/**
 Who owns which descriptor, and which ports are registered as in use.  `World` is the process
 and the kernel together: the open descriptors with their local ports, the static registry
 `ports_in_use`, which a build with REUSEADDR has, and the `TCPSocket` objects alive.  Every
 method is one step that a thread takes without another thread seeing its middle; `close` is
 three of them, since it asks for the port, erases it and closes the descriptor under no common
 lock.  A `TCPSocket` object is used by one thread at a time.  What a system call answers is
 handed to each step, so that its contract says exactly what it does with either answer.
 */
module Descriptors {
  import opened Wrappers

  class TCPSocket {
    var fd: int   // m_socket, -1 when closed
    var sendTimeout: nat
    var recvTimeout: nat

    constructor (fd: int)
      ensures this.fd == fd && sendTimeout == recvTimeout == 0
    {
      this.fd, sendTimeout, recvTimeout := fd, 0, 0;
    }

    ghost predicate Empty()
      reads this
    {
      fd == -1 && sendTimeout == recvTimeout == 0
    }

    /** The assignments to a moved-from object, and to a closed one. */
    method Reset()
      modifies this
      ensures Empty()
    {
      fd, sendTimeout, recvTimeout := -1, 0, 0;
    }
  }

  class World {
    var open: map<int, nat>               // open descriptors and their local ports, 0 if none
    var ports: set<nat>                   // ports_in_use
    var live: set<TCPSocket>              // the objects not yet destroyed
    ghost var owner: map<int, TCPSocket>  // the object that holds a descriptor
    var asked: map<int, nat>              // what getsockname said of descriptors being closed
    var closing: set<int>                 // descriptors of which only ::close is still to come
    ghost var leaked: set<int>            // open descriptors that no object holds any more
    ghost var stale: set<nat>             // ports that a failed getsockname left in the registry

    constructor ()
      ensures Valid() && open == map[] && ports == {} && live == {} && asked == map[] && closing == {}
      ensures leaked == {} && stale == {}
    {
      open, ports, asked, closing, stale := map[], {}, map[], {}, {};
      live, owner, leaked := {}, map[], {};
    }

    /** Every held descriptor is open and has one owner; every open descriptor is owned by a live
        object or accounted for as leaked. */
    ghost predicate Owned()
      reads this, live
    {
      && (forall s :: s in live && s.fd != -1 ==> s.fd in owner && owner[s.fd] == s)
      && (forall d :: d in owner ==> d >= 0 && owner[d] in live && owner[d].fd == d)
      && open.Keys == owner.Keys + leaked && owner.Keys !! leaked
      && closing <= owner.Keys && -1 !in open
    }

    /** What was asked of a descriptor is still so: nobody else binds or closes it. */
    ghost predicate Remembered()
      reads this
    {
      forall d :: d in asked ==> d in owner && d !in closing && d in open && asked[d] == open[d]
    }

    /** A registered port is the local port of an open socket whose port is still to be erased,
        unless `getsockname` failed on the last one. */
    ghost predicate Registered()
      reads this
    {
      forall p :: p in ports && p != 0 && p !in stale ==> exists d :: d in open && open[d] == p && d !in closing
    }

    /** The converse of `Registered`, which the program does not keep: see `ErasePort`. */
    ghost predicate Complete()
      reads this
    {
      forall d :: d in open && d !in closing && open[d] != 0 ==> open[d] in ports
    }

    ghost predicate Valid()
      reads this, live
    {
      Owned() && Remembered() && Registered()
    }

    /** No two objects hold one descriptor, and a descriptor that is held is open. */
    lemma OneOwner(s: TCPSocket, t: TCPSocket)
      requires Valid() && s in live && t in live && s.fd == t.fd && s.fd != -1
      ensures s == t && s.fd in open && s.fd !in leaked
    {
    }

    /** The object may be used: it is alive, and no other thread is in the middle of closing it. */
    predicate Usable(s: TCPSocket)
      reads this, s
    {
      s in live && s.fd !in closing && s.fd !in asked
    }

    /** Default construction: a closed socket. */
    method New() returns (s: TCPSocket)
      requires Valid()
      modifies this`live
      ensures Valid() && fresh(s) && s.Empty() && live == old(live) + {s}
    {
      s := new TCPSocket(-1);
      live := live + {s};
    }

    /** The descriptor that the kernel can hand out: not one that is open. */
    predicate Free(answer: int)
      reads this`open
    {
      answer >= 0 && answer !in open
    }

    /** `socket` and `accept` return -1, or a descriptor that was not open. */
    method KernelOpen(answer: int, port: nat) returns (d: int)
      modifies this`open
      ensures d == if old(Free(answer)) then answer else -1
      ensures open == if old(Free(answer)) then old(open)[answer := port] else old(open)
    {
      d := -1;
      if Free(answer) {
        d := answer;
        open := open[d := port];
      }
    }

    /** `::close` of a descriptor that is open and has the closing object as its only owner. */
    method KernelClose(d: int, ghost s: TCPSocket, closes: bool) returns (ok: bool)
      requires d in open && d in owner && owner[d] == s
      requires forall t :: t in live && t != s ==> t.fd != d
      modifies this`open
      ensures ok == closes && open == if ok then old(open) - {d} else old(open)
    {
      ok := closes;
      if ok {
        open := open - {d};
      }
    }

    /** `m_socket` is about to be overwritten or destroyed: the descriptor it holds is leaked. */
    method Leak(s: TCPSocket)
      requires Valid() && Usable(s)
      modifies this`owner, this`leaked, s`fd
      ensures Valid() && Usable(s) && s.fd == -1
      ensures leaked == old(leaked) + if old(s.fd) == -1 then {} else {old(s.fd)}
    {
      if s.fd != -1 {
        leaked := leaked + {s.fd};
        owner := owner - {s.fd};
        s.fd := -1;
      }
    }

    /** `create` overwrites `m_socket`: a descriptor that the object held is leaked. */
    method Create(s: TCPSocket, answer: int) returns (ok: bool)
      requires Valid() && Usable(s)
      modifies this`open, this`owner, this`leaked, s`fd
      ensures Valid() && Usable(s) && ok == old(Free(answer)) && s.fd == if ok then answer else -1
      ensures open == if ok then old(open)[answer := 0] else old(open)
      ensures leaked == old(leaked) + if old(s.fd) == -1 then {} else {old(s.fd)}
    {
      Leak(s);
      ghost var held := owner.Keys;
      var d := KernelOpen(answer, 0);
      ok := d != -1;
      if ok {
        s.fd := d;
        owner := owner[d := s];
        assert owner.Keys == held + {d};
      }
    }

    /** Some other open socket that is not being closed has the local port of `d`. */
    ghost predicate SharesPort(d: int)
      requires d in open
      reads this
    {
      open[d] != 0 && exists e :: e in open && e != d && e !in closing && open[e] == open[d]
    }

    /** The first step of `close`: `getsockname`, outside the lock.  If it fails the registry is
        left as it is, and may name a port that nobody has. */
    method LookUpPort(s: TCPSocket, named: bool) returns (port: Option<nat>)
      requires Valid() && Usable(s) && s.fd != -1
      modifies this`asked, this`closing, this`stale
      ensures Valid() && port.Some? == named
      ensures port.Some? ==>
                port.value == open[s.fd] && asked == old(asked)[s.fd := port.value]
                && closing == old(closing) && stale == old(stale)
      ensures port == None ==>
                asked == old(asked) && closing == old(closing) + {s.fd} && stale == old(stale) + {open[s.fd]}
      ensures old(Complete()) ==> Complete()
    {
      if !named {
        closing, stale := closing + {s.fd}, stale + {open[s.fd]};
        return None;
      }
      asked := asked[s.fd := open[s.fd]];
      port := Some(open[s.fd]);
    }

    /** The second step, under the lock: the port that was looked up leaves the registry.  A
        registry that named every local port goes on doing so exactly when no other socket has
        this one; a listener and the sockets it accepted do share it. */
    method ErasePort(s: TCPSocket)
      requires Valid() && s in live && s.fd in asked
      modifies this`ports, this`asked, this`closing, this`stale
      ensures Valid() && closing == old(closing) + {s.fd} && asked == old(asked) - {s.fd}
      ensures ports == old(ports) - {open[s.fd]} && stale == old(stale) - {open[s.fd]}
      ensures old(Complete()) ==> (Complete() <==> !old(SharesPort(s.fd)))
    {
      ports, stale := ports - {asked[s.fd]}, stale - {asked[s.fd]};
      closing, asked := closing + {s.fd}, asked - {s.fd};
    }

    /** The last step.  A failed `::close` leaves the descriptor open and held. */
    method FinishClose(s: TCPSocket, closes: bool) returns (ok: bool)
      requires Valid() && s in live && s.fd in closing
      modifies this`open, this`owner, this`closing, s
      ensures Valid() && Usable(s) && ok == closes
      ensures closing == old(closing) - {old(s.fd)}
      ensures open == if ok then old(open) - {old(s.fd)} else old(open)
      ensures if ok then s.Empty() else s.fd == old(s.fd)
      ensures old(Complete()) && ok ==> Complete()
      ensures old(Complete()) && !ok ==> (Complete() <==> open[s.fd] == 0 || open[s.fd] in ports)
    {
      var d := s.fd;
      ok := KernelClose(d, s, closes);
      closing := closing - {d};
      if ok {
        owner := owner - {d};
        s.Reset();
      }
    }

    /** What closing a socket did to the registry: its port is gone, or stale if the port could not
        be looked up. */
    ghost predicate Unregistered(port: nat, named: bool, portsBefore: set<nat>, staleBefore: set<nat>)
      reads this
    {
      if named then ports == portsBefore - {port} && stale == staleBefore - {port}
      else ports == portsBefore && stale == staleBefore + {port}
    }

    /** `close` with no other thread in between. */
    method Close(s: TCPSocket, named: bool, closes: bool) returns (ok: bool)
      requires Valid() && Usable(s)
      modifies this`open, this`ports, this`owner, this`asked, this`closing, this`stale, s
      ensures Valid() && Usable(s) && closing == old(closing) && asked == old(asked)
      ensures ok <==> old(s.fd) != -1 && closes
      ensures old(s.fd) == -1 ==>
                !ok && open == old(open) && ports == old(ports) && stale == old(stale) && s.fd == -1
      ensures old(s.fd) != -1 ==>
                && open == (if ok then old(open) - {old(s.fd)} else old(open))
                && Unregistered(old(open[s.fd]), named, old(ports), old(stale))
      ensures if ok then s.Empty() else s.fd == old(s.fd)
    {
      if s.fd == -1 {
        return false;
      }
      var port := LookUpPort(s, named);
      if port.Some? {
        ErasePort(s);
      }
      ok := FinishClose(s, closes);
    }

    /** The member-wise move: `to`, which holds nothing, takes what `from` holds. */
    method Take(to: TCPSocket, from: TCPSocket)
      requires Valid() && Usable(to) && Usable(from) && to.fd == -1
      modifies this`owner, to, from
      ensures Valid() && from.Empty()
      ensures to != from ==>
                && to.fd == old(from.fd) && to.sendTimeout == old(from.sendTimeout)
                && to.recvTimeout == old(from.recvTimeout)
    {
      to.fd, to.sendTimeout, to.recvTimeout := from.fd, from.sendTimeout, from.recvTimeout;
      if to.fd != -1 {
        owner := owner[to.fd := to];
      }
      from.Reset();
    }

    /** The move constructor. */
    method MoveConstruct(from: TCPSocket) returns (s: TCPSocket)
      requires Valid() && Usable(from)
      modifies this`live, this`owner, from
      ensures Valid() && fresh(s) && live == old(live) + {s}
      ensures s.fd == old(from.fd) && from.Empty()
      ensures s.sendTimeout == old(from.sendTimeout) && s.recvTimeout == old(from.recvTimeout)
    {
      s := New();
      Take(s, from);
    }

    /** The common start of move assignment and destruction.  A descriptor that could not be
        closed is leaked, as `m_socket` is overwritten or destroyed next; it is emptied here. */
    method Drop(s: TCPSocket, named: bool, closes: bool)
      requires Valid() && Usable(s)
      modifies this`open, this`ports, this`owner, this`asked, this`closing, this`stale, this`leaked, s
      ensures Valid() && s.fd == -1 && closing == old(closing) && asked == old(asked)
      ensures open == if old(s.fd) != -1 && closes then old(open) - {old(s.fd)} else old(open)
      ensures old(s.fd) == -1 ==> ports == old(ports) && stale == old(stale)
      ensures old(s.fd) != -1 ==> Unregistered(old(open[s.fd]), named, old(ports), old(stale))
      ensures leaked == old(leaked) + if old(s.fd) != -1 && !closes then {old(s.fd)} else {}
    {
      if s.fd != -1 {
        var ok := Close(s, named, closes);
        if !ok {
          Leak(s);
        }
      }
    }

    /** Move assignment, also of an object to itself. */
    method MoveAssign(to: TCPSocket, from: TCPSocket, named: bool, closes: bool)
      requires Valid() && Usable(to) && Usable(from)
      modifies this`open, this`ports, this`owner, this`asked, this`closing, this`stale, this`leaked, to, from
      ensures Valid() && from.Empty() && closing == old(closing) && asked == old(asked)
      ensures to != from ==>
                && to.fd == old(from.fd) && to.sendTimeout == old(from.sendTimeout)
                && to.recvTimeout == old(from.recvTimeout)
      ensures open == if old(to.fd) != -1 && closes then old(open) - {old(to.fd)} else old(open)
      ensures old(to.fd) == -1 ==> ports == old(ports) && stale == old(stale)
      ensures old(to.fd) != -1 ==> Unregistered(old(open[to.fd]), named, old(ports), old(stale))
      ensures leaked == old(leaked) + if old(to.fd) != -1 && !closes then {old(to.fd)} else {}
    {
      Drop(to, named, closes);
      Take(to, from);
    }

    /** The destructor. */
    method Destroy(s: TCPSocket, named: bool, closes: bool)
      requires Valid() && Usable(s)
      modifies this, s
      ensures Valid() && live == old(live) - {s} && closing == old(closing) && asked == old(asked)
      ensures open == if old(s.fd) != -1 && closes then old(open) - {old(s.fd)} else old(open)
      ensures old(s.fd) == -1 ==> ports == old(ports) && stale == old(stale)
      ensures old(s.fd) != -1 ==> Unregistered(old(open[s.fd]), named, old(ports), old(stale))
      ensures leaked == old(leaked) + if old(s.fd) != -1 && !closes then {old(s.fd)} else {}
    {
      Drop(s, named, closes);
      live := live - {s};
    }

    /** `accept`: a new object for a new descriptor, with the local port of the listener. */
    method Accept(listener: TCPSocket, answer: int) returns (client: Option<TCPSocket>)
      requires Valid() && Usable(listener)
      modifies this`open, this`owner, this`live
      ensures Valid()
      ensures client.Some? <==> listener.fd != -1 && old(Free(answer))
      ensures client == None ==> open == old(open) && live == old(live)
      ensures client.Some? ==>
                && fresh(client.value) && live == old(live) + {client.value} && Usable(client.value)
                && client.value.fd == answer && listener.fd in old(open)
                && open == old(open)[answer := old(open)[listener.fd]]
      ensures old(Complete()) ==> Complete()
    {
      if listener.fd == -1 {
        return None;
      }
      var d := KernelOpen(answer, open[listener.fd]);
      if d < 0 {
        return None;
      }
      var s := new TCPSocket(d);
      live := live + {s};
      owner := owner[d := s];
      client := Some(s);
    }

    /** `bind`, under the lock throughout.  The kernel binds only a descriptor without a port, for
        whatever other reasons it may refuse, and picks the port when asked for 0. */
    method Bind(s: TCPSocket, port: nat, granted: bool, chosen: nat) returns (ok: bool)
      requires Valid() && Usable(s)
      modifies this`open, this`ports
      ensures Valid()
      ensures ok <==>
                && s.fd != -1 && port !in old(ports) && granted && old(open)[s.fd] == 0 && (port != 0 || chosen != 0)
      ensures !ok ==> open == old(open) && ports == old(ports)
      ensures ok ==>
                && ports == old(ports) + {port} && s.fd in old(open)
                && open == old(open)[s.fd := if port != 0 then port else chosen]
      ensures old(Complete()) && port != 0 ==> Complete()
    {
      if s.fd == -1 || port in ports {
        return false;
      }
      var given := if port != 0 then port else chosen;
      ok := granted && open[s.fd] == 0 && given != 0;
      if ok {
        open := open[s.fd := given];
        ports := ports + {port};
      }
    }

    /** `connect`: an unbound socket is given some local port, which is not registered. */
    method Connect(s: TCPSocket, granted: bool, chosen: nat) returns (ok: bool)
      requires Valid() && Usable(s)
      modifies this`open
      ensures Valid()
      ensures ok <==> s.fd != -1 && granted && (old(open)[s.fd] != 0 || chosen != 0)
      ensures open == if ok && old(open)[s.fd] == 0 then old(open)[s.fd := chosen] else old(open)
    {
      if s.fd == -1 {
        return false;
      }
      ok := granted && (open[s.fd] != 0 || chosen != 0);
      if ok && open[s.fd] == 0 {
        open := open[s.fd := chosen];
      }
    }

    /** A listener whose port is forgotten while it goes on listening: a client is accepted from it
        and closed. */
    method ForgetListener(listener: TCPSocket, answer: int) returns (client: Option<TCPSocket>)
      requires Valid() && Usable(listener) && listener.fd != -1 && open[listener.fd] != 0
      modifies this`open, this`owner, this`live, this`ports, this`asked, this`closing, this`stale
      ensures Valid() && (client.Some? <==> old(Free(answer)))
      ensures client.Some? ==>
                && Usable(listener) && listener.fd in open && open[listener.fd] == old(open[listener.fd])
                && open[listener.fd] !in ports && !Complete()
    {
      client := Accept(listener, answer);
      if client.Some? {
        var port := LookUpPort(client.value, true);
        ErasePort(client.value);
      }
    }

    /** Any interleaving of any number of steps, on any objects: ownership and the registry stay
        as `Valid` says throughout.  The steps of `close`, and those of a move assignment and of
        a destruction around one, are also taken one by one. */
    method Interleave(steps: nat)
      requires Valid()
      modifies this, live
      ensures Valid()
    {
      for i := 0 to steps
        invariant Valid() && forall s :: s in live ==> s in old(live) || fresh(s)
      {
        var choice: int, answer: int, yes: bool, other: bool := *, *, *, *;
        var port: nat, chosen: nat := *, *;
        if choice == 0 || live == {} {
          var s := New();
        } else {
          var s: TCPSocket, t: TCPSocket :| s in live && t in live;
          if s.fd in asked {
            ErasePort(s);
          } else if s.fd in closing {
            var ok := FinishClose(s, yes);
          } else {
            match choice
            case 1 => var ok := Create(s, answer);
            case 2 => if s.fd != -1 { var found := LookUpPort(s, yes); }
            case 3 => var r := MoveConstruct(s);
            case 4 => if Usable(t) { MoveAssign(s, t, yes, other); }
            case 5 => Destroy(s, yes, other);
            case 6 => var r := Accept(s, answer);
            case 7 => var ok := Bind(s, port, yes, chosen);
            case 8 => var ok := Connect(s, yes, chosen);
            case 9 => Leak(s);
            case 10 => if Usable(t) && s.fd == -1 { Take(s, t); }
            case _ => var ok := Close(s, yes, other);
          }
        }
      }
    }
  }
}
