/** The child accounting of APPS/inetd/inetd.c: which services are watched, and which children are remembered. */
module InetdChildren {
  import opened ScanSpec

  /** A service. `pids` is its array of child process ids, of which the first `numchild` are in use. */
  class Servtab {
    var fd: int
    var maxchild: int
    var numchild: nat
    var pids: seq<int>
    /** The children started and not yet reaped or forgotten. */
    ghost var kids: multiset<int>

    constructor (limit: int)
      ensures fd == -1 && maxchild == limit && numchild == 0 && kids == multiset{}
      ensures |pids| == if limit > 0 then limit else 0
    {
      fd, maxchild, numchild := -1, limit, 0;
      pids := seq(if limit > 0 then limit else 0, _ => 0);
      kids := multiset{};
    }

    predicate AtLimit()
      reads `maxchild, `numchild
    {
      maxchild > 0 && numchild == maxchild
    }

    /** Never more children than allowed, none for a closed service, and the array's prefix is those remembered. */
    ghost predicate Ok()
      reads this
    {
      && -1 <= fd
      && (if maxchild > 0 then |pids| == maxchild && numchild <= maxchild else numchild == 0)
      && (fd == -1 ==> numchild == 0)
      && numchild <= |pids| && multiset(pids[..numchild]) == kids
    }

    /** A process id put behind the prefix. */
    method Remember(pid: int)
      requires Ok() && fd >= 0 && maxchild > 0 && numchild < maxchild
      modifies `numchild, `pids, `kids
      ensures Ok() && numchild == old(numchild) + 1 && kids == old(kids) + multiset{pid}
    {
      PrefixAdd(pids, numchild, pid);
      pids := pids[numchild := pid];
      numchild := numchild + 1;
      kids := kids + multiset{pid};
    }

    /** What becomes of a service at its limit when one more child is added: the array has no place for it. */
    method Overrun(pid: int)
      requires Ok() && AtLimit()
      modifies `numchild, `kids
      ensures !Ok() && numchild == old(numchild) + 1 && kids == old(kids) + multiset{pid}
    {
      numchild := numchild + 1;
      kids := kids + multiset{pid};
    }

    /** The place of a process id in the prefix, or the end of the prefix. */
    method Search(pid: int) returns (k: nat)
      requires Ok()
      ensures k <= numchild && (k < numchild ==> pids[k] == pid)
      ensures k == numchild <==> pid !in kids
    {
      k := 0;
      while k < numchild
        invariant k <= numchild && pid !in pids[..k]
      {
        if pids[k] == pid {
          assert pid in pids[..numchild];
          assert pid in multiset(pids[..numchild]);
          return;
        }
        assert pids[..k + 1] == pids[..k] + [pids[k]];
        k := k + 1;
      }
      assert pid !in multiset(pids[..numchild]);
    }

    /** The process id at `k` taken out, and the last of the prefix moved into its place. */
    method Forget(k: nat)
      requires Ok() && k < numchild
      modifies `numchild, `pids, `kids
      ensures Ok() && numchild == old(numchild) - 1 && kids + multiset{old(pids[k])} == old(kids)
    {
      PrefixDrop(pids, numchild, k);
      OneLess(multiset(pids[k := pids[numchild - 1]][..numchild - 1]), kids, pids[k]);
      kids := kids - multiset{pids[k]};
      numchild := numchild - 1;
      pids := pids[k := pids[numchild]];
    }

    /** The socket closed and the children forgotten. */
    method Clear()
      requires Ok()
      modifies `fd, `numchild, `kids
      ensures Ok() && fd == -1 && numchild == 0 && kids == multiset{}
    {
      fd := -1;
      numchild := 0;
      kids := multiset{};
      assert pids[..0] == [];
    }

    /** A new limit with a new array. Of the children remembered, as many as the new limit allows are kept when
        there was a limit and there is one now; otherwise none. */
    method Relimit(limit: int)
      requires Ok()
      modifies `maxchild, `numchild, `pids, `kids
      ensures Ok() && maxchild == limit && kids <= old(kids)
      ensures numchild == if old(maxchild) > 0 && limit > 0 then
                            (if old(numchild) > limit then limit else old(numchild)) else 0
      ensures numchild <= |old(pids)| && kids == multiset(old(pids)[..numchild])
      ensures old(maxchild) > 0 && limit > 0 && old(numchild) <= limit ==> kids == old(kids)
    {
      var n := 0;
      var copy := seq(if limit > 0 then limit else 0, _ => 0);
      if maxchild > 0 && limit > 0 {
        n := numchild;
        if n > limit {
          n := limit;
        }
        copy := pids[..n] + copy[n..];
      }
      assert copy[..n] == pids[..n];
      assert pids[..numchild] == pids[..n] + pids[n..numchild];
      kids := multiset(pids[..n]);
      pids := copy;
      maxchild := limit;
      numchild := n;
    }
  }

  lemma PrefixAdd(pids: seq<int>, n: nat, pid: int)
    requires n < |pids|
    ensures multiset(pids[n := pid][..n + 1]) == multiset(pids[..n]) + multiset{pid}
  {
    assert pids[n := pid][..n + 1] == pids[..n] + [pid];
  }

  lemma OneLess(less: multiset<int>, all: multiset<int>, pid: int)
    requires less + multiset{pid} == all
    ensures all - multiset{pid} == less
  {
  }

  /** Filling the hole with the last of the prefix takes out just the one in the hole. */
  lemma PrefixDrop(pids: seq<int>, n: nat, k: nat)
    requires k < n <= |pids|
    ensures multiset(pids[k := pids[n - 1]][..n - 1]) + multiset{pids[k]} == multiset(pids[..n])
  {
    var last := pids[n - 1];
    assert pids[..n] == pids[..n - 1] + [last];
    if k < n - 1 {
      assert pids[k := last][..n - 1] == pids[..n - 1][k := last];
      assert pids[..n - 1] == pids[..k] + [pids[k]] + pids[k + 1..n - 1];
      assert pids[..n - 1][k := last] == pids[..k] + [last] + pids[k + 1..n - 1];
    } else {
      assert pids[k := last][..n - 1] == pids[..n - 1];
    }
  }

  /** What the main loop has to deal with: a connection to be served, a child that has exited, or a step of reading the
      configuration. Services are given by their place in the table. */
  datatype Event =
    | Serve(i: nat, pid: int) | Exited(pid: int) | Close(i: nat) | Open(i: nat, sock: Option<int>, bound: bool)
    | Reread(i: nat, limit: int) | Added(limit: int) | Dropped(i: nat)

  class Inetd {
    /** The table of services, in the order of its links. */
    var servtab: seq<Servtab>
    var allsock: set<int>
    var maxsock: int
    const signalpipe: int

    /** An open service is watched unless it is at its limit. */
    ghost predicate WatchedIff(s: Servtab)
      reads this, s
    {
      s.fd >= 0 ==> (s.fd in allsock <==> !s.AtLimit())
    }

    /** Services are different objects with different open sockets, none of them the signal pipe. */
    ghost predicate Separate()
      reads `servtab, servtab`fd
    {
      && (forall i, j {:trigger servtab[i], servtab[j]} :: 0 <= i < j < |servtab| ==> servtab[i] != servtab[j])
      && (forall s {:trigger s.fd} :: s in servtab ==> s.fd != signalpipe)
      && (forall s, t {:trigger s.fd, t.fd} :: s in servtab && t in servtab && s != t && s.fd >= 0 ==> s.fd != t.fd)
    }

    ghost predicate Sockets()
      reads `servtab, `allsock, `maxsock, servtab`fd
    {
      && signalpipe >= 0 && signalpipe in allsock
      && (forall f :: f in allsock ==> 0 <= f <= maxsock)
      && (forall f :: f in allsock && f != signalpipe ==> exists s {:trigger s.fd} :: s in servtab && s.fd == f)
    }

    ghost predicate Valid()
      reads this, servtab
    {
      && Separate() && Sockets()
      && forall s {:trigger s.Ok()} {:trigger s in servtab} :: s in servtab ==> s.Ok() && WatchedIff(s)
    }

    constructor (pipe0: int, pipe1: int)
      requires pipe0 >= 0 && pipe1 >= 0
      ensures Valid() && servtab == [] && signalpipe == pipe0
    {
      servtab := [];
      signalpipe := pipe0;
      allsock := {pipe0};
      maxsock := if pipe1 > pipe0 then pipe1 else pipe0;
    }

    method Enable(sep: Servtab)
      requires sep.fd >= 0 && sep.fd !in allsock && sep.fd != signalpipe && sep in servtab && Sockets()
      modifies `allsock, `maxsock
      ensures allsock == old(allsock) + {sep.fd} && Sockets()
    {
      allsock := allsock + {sep.fd};
      if sep.fd > maxsock {
        maxsock := sep.fd;
      }
    }

    method Disable(sep: Servtab)
      requires sep.fd >= 0 && sep.fd in allsock && sep.fd != signalpipe && Sockets()
      modifies `allsock, `maxsock
      ensures allsock == old(allsock) - {sep.fd} && Sockets()
    {
      allsock := allsock - {sep.fd};
      if sep.fd == maxsock {
        maxsock := maxsock - 1;
      }
    }

    /** A child of an open service remembered; at the limit the service is no longer watched. The service may have
        reached its limit before: the main loop serves every socket that `select` found readable, also when the
        configuration read in between has brought the limit down to the number of children. Then, and only then, the
        process id is written behind the array, and there is a child more than the limit allows. */
    method AddChild(sep: Servtab, pid: int)
      requires Valid() && sep in servtab && sep.fd >= 0
      modifies `allsock, `maxsock, sep`numchild, sep`pids, sep`kids
      ensures Valid() <==> !old(sep.AtLimit())
      ensures old(sep.AtLimit()) <==> sep.fd !in old(allsock)
      ensures old(sep.AtLimit()) ==> sep.numchild == sep.maxchild + 1 == |sep.pids| + 1 && allsock == old(allsock)
      ensures !old(sep.AtLimit()) ==> (sep.fd in allsock <==> !sep.AtLimit())
      ensures sep.kids == if sep.maxchild > 0 then old(sep.kids) + multiset{pid} else old(sep.kids)
      ensures forall f :: f != sep.fd ==> (f in allsock <==> f in old(allsock))
    {
      assert sep.Ok() && WatchedIff(sep);
      if sep.maxchild <= 0 {
        return;
      }
      if sep.numchild >= sep.maxchild {
        sep.Overrun(pid);
        return;
      }
      assert Kept(sep, allsock);
      hide Servtab.Ok, Separate, Sockets, Kept;
      PipeIsOther(sep);
      sep.Remember(pid);
      if sep.numchild == sep.maxchild {
        Disable(sep);
      }
      KeptWatched(sep, old(allsock));
    }

    lemma PipeIsOther(sep: Servtab)
      requires Separate() && sep in servtab
      ensures sep.fd != signalpipe
    {
    }

    /** The services other than `sep` are in order, and watched as `was` says. */
    ghost predicate Kept(sep: Servtab, was: set<int>)
      reads `servtab, servtab
    {
      forall s {:trigger s.Ok()} {:trigger s in servtab} :: s in servtab && s != sep ==>
        s.Ok() && (s.fd >= 0 ==> (s.fd in was <==> !s.AtLimit()))
    }

    lemma KeptNow(sep: Servtab)
      requires Valid() && sep in servtab
      ensures sep.Ok() && WatchedIff(sep) && Kept(sep, allsock) && -1 <= sep.fd
    {
      assert sep.Ok();
    }

    lemma KeptWatched(sep: Servtab, was: set<int>)
      requires Separate() && sep in servtab && Kept(sep, was)
      requires forall f :: f != sep.fd ==> (f in allsock <==> f in was)
      ensures forall s {:trigger s.Ok()} {:trigger s in servtab} :: s in servtab && s != sep ==> s.Ok() && WatchedIff(s)
    {
      hide Servtab.Ok, Servtab.AtLimit;
    }

    /** The first service that remembers a child, and the child's place there. */
    method FindChild(pid: int) returns (at: nat, k: nat)
      requires Valid()
      ensures at <= |servtab| && forall j {:trigger servtab[j]} :: 0 <= j < at ==> pid !in servtab[j].kids
      ensures at < |servtab| ==> k < servtab[at].numchild && k < |servtab[at].pids| && servtab[at].pids[k] == pid
    {
      at, k := 0, 0;
      while at < |servtab|
        invariant at <= |servtab|
        invariant forall j {:trigger servtab[j]} :: 0 <= j < at ==> pid !in servtab[j].kids
      {
        assert servtab[at] in servtab && servtab[at].Ok();
        k := servtab[at].Search(pid);
        if k < servtab[at].numchild {
          return;
        }
        at := at + 1;
      }
    }

    /** A child that has exited is taken off the first service that remembers it, and off no other. `at` is that
        service's place in the table, or the length of the table. */
    method Reap(pid: int) returns (at: nat)
      requires Valid()
      modifies `allsock, `maxsock, servtab
      ensures Valid() && servtab == old(servtab) && at <= |servtab|
      ensures forall j {:trigger servtab[j]} :: 0 <= j < at ==> pid !in old(servtab[j].kids)
      ensures at < |servtab| ==> servtab[at].kids + multiset{pid} == old(servtab[at].kids)
      ensures forall s :: s in servtab && (at == |servtab| || s != servtab[at]) ==> s.kids == old(s.kids)
      ensures at < |servtab| ==> servtab[at].fd in allsock
      ensures forall s :: s in servtab ==> s.fd == old(s.fd)
    {
      var k;
      at, k := FindChild(pid);
      if at < |servtab| {
        hide Valid;
        TakeOne(servtab[at], k);
      }
    }

    /** One remembered child taken off; a service at its limit is watched again. */
    method TakeOne(sep: Servtab, k: nat)
      requires Valid() && sep in servtab && k < sep.numchild && k < |sep.pids|
      modifies `allsock, `maxsock, sep`numchild, sep`pids, sep`kids
      ensures Valid() && sep.kids + multiset{old(sep.pids[k])} == old(sep.kids)
      ensures sep.fd in allsock
    {
      assert sep.Ok() && WatchedIff(sep);
      assert Kept(sep, allsock);
      hide Servtab.Ok, Separate, Sockets, Kept;
      PipeIsOther(sep);
      OpenIfBusy(sep);
      WatchAgain(sep);
      sep.Forget(k);
      KeptWatched(sep, old(allsock));
    }

    method WatchAgain(sep: Servtab)
      requires Sockets() && sep in servtab && sep.fd >= 0 && sep.fd != signalpipe && sep.maxchild > 0 && WatchedIff(sep)
      modifies `allsock, `maxsock
      ensures Sockets() && sep.fd in allsock
      ensures forall f :: f != sep.fd ==> (f in allsock <==> f in old(allsock))
    {
      hide Sockets;
      if sep.numchild == sep.maxchild {
        Enable(sep);
      }
    }

    lemma OpenIfBusy(sep: Servtab)
      requires sep.Ok() && sep.numchild > 0
      ensures sep.fd >= 0 && sep.maxchild > 0
    {
    }

    /** All children that have exited, in the order they are waited for. */
    method ReapChild(exited: seq<int>)
      requires Valid()
      modifies `allsock, `maxsock, servtab
      ensures Valid() && servtab == old(servtab)
      ensures forall s {:trigger s in servtab} :: s in servtab ==> s.kids <= old(s.kids)
    {
      var n := 0;
      while n < |exited|
        invariant Valid() && servtab == old(servtab)
        invariant forall s {:trigger s in servtab} :: s in servtab ==> s.kids <= old(s.kids)
      {
        label before:
        var at := Reap(exited[n]);
        forall s {:trigger s in servtab} | s in servtab
          ensures s.kids <= old@before(s.kids)
        {
          if at < |servtab| && s == servtab[at] {
            assert s.kids + multiset{exited[n]} == old@before(s.kids);
          }
        }
        n := n + 1;
      }
    }

    /** Finishes with a service and its socket. */
    method CloseSep(sep: Servtab)
      requires Valid() && sep in servtab
      modifies `allsock, `maxsock, sep`fd, sep`numchild, sep`kids
      ensures Valid() && sep.fd == -1 && sep.kids == multiset{}
      ensures allsock == old(allsock) - {old(sep.fd)}
    {
      hide Servtab.Ok, Servtab.AtLimit, Kept;
      KeptNow(sep);
      if sep.fd >= 0 {
        if sep.fd in allsock {
          Disable(sep);
        }
        NotItsOwn(sep);
      }
      KeptWatched(sep, old(allsock));
      label before:
      sep.Clear();
      forall s {:trigger s in servtab} | s in servtab && s != sep
        ensures s.Ok() && WatchedIff(s)
      {
        assert old@before(s.Ok() && WatchedIff(s));
      }
    }

    /** A socket not watched, and so each watched one belongs to another service. */
    lemma NotItsOwn(sep: Servtab)
      requires Sockets() && sep.fd !in allsock
      ensures forall f :: f in allsock && f != signalpipe ==>
                exists s {:trigger s.fd} :: s in servtab && s != sep && s.fd == f
    {
    }

    /** Opens a closed service: `sock` is the new socket, if there is one, and `bound` says that it could be bound. */
    method Setup(sep: Servtab, sock: Option<int>, bound: bool)
      requires Valid() && sep in servtab && sep.fd == -1
      requires sock.Some? ==> sock.value >= 0 && sock.value != signalpipe
                              && forall s {:trigger s.fd} :: s in servtab ==> s.fd != sock.value
      modifies `allsock, `maxsock, sep`fd
      ensures Valid() && sep.fd == if sock.Some? && bound then sock.value else -1
      ensures sep.kids == old(sep.kids) == multiset{}
      ensures allsock == old(allsock) + if sep.fd >= 0 then {sep.fd} else {}
    {
      hide Servtab.AtLimit, Servtab.Ok;
      KeptNow(sep);
      ClosedHasNone(sep);
      if sock.None? {
        return;
      }
      NotItsOwn(sep);
      sep.fd := sock.value;
      if !bound {
        sep.fd := -1;
        return;
      }
      NewSocket(sep);
      Enable(sep);
      EmptyOk(sep);
      KeptWatched(sep, old(allsock));
    }

    lemma ClosedHasNone(sep: Servtab)
      requires sep.Ok() && sep.fd == -1
      ensures sep.kids == multiset{} && sep.numchild == 0 && !sep.AtLimit()
      ensures sep.maxchild > 0 ==> |sep.pids| == sep.maxchild
    {
      assert sep.pids[..0] == [];
    }

    lemma EmptyOk(sep: Servtab)
      requires sep.fd >= -1 && sep.kids == multiset{} && sep.numchild == 0
      requires sep.maxchild > 0 ==> |sep.pids| == sep.maxchild
      ensures sep.Ok() && !sep.AtLimit()
    {
      assert sep.pids[..0] == [];
    }

    lemma NewSocket(sep: Servtab)
      requires sep in servtab && sep.fd >= 0 && sep.fd != signalpipe
      requires forall f :: f in allsock && f != signalpipe ==>
                 exists s {:trigger s.fd} :: s in servtab && s != sep && s.fd == f
      requires forall s {:trigger s.fd} :: s in servtab && s != sep ==> s.fd != sep.fd
      ensures sep.fd !in allsock
    {
    }

    /** A service read again from the configuration, with another limit; it is turned on or off accordingly. */
    method Reconfigure(sep: Servtab, limit: int)
      requires Valid() && sep in servtab
      modifies `allsock, `maxsock, sep`maxchild, sep`numchild, sep`pids, sep`kids
      ensures Valid() && sep.maxchild == limit && sep.kids <= old(sep.kids)
      ensures sep.numchild <= |old(sep.pids)| && sep.kids == multiset(old(sep.pids)[..sep.numchild])
      ensures old(sep.maxchild) > 0 && limit > 0 && old(sep.numchild) <= limit ==> sep.kids == old(sep.kids)
      ensures forall f :: f != sep.fd ==> (f in allsock <==> f in old(allsock))
    {
      assert sep.Ok() && WatchedIff(sep) && Kept(sep, allsock);
      hide Servtab.Ok, Separate, Sockets, Kept;
      PipeIsOther(sep);
      sep.Relimit(limit);
      TurnOnOrOff(sep);
      KeptWatched(sep, old(allsock));
    }

    method TurnOnOrOff(sep: Servtab)
      requires Sockets() && sep in servtab && sep.fd != signalpipe
      modifies `allsock, `maxsock
      ensures Sockets() && WatchedIff(sep)
      ensures forall f :: f != sep.fd || f < 0 ==> (f in allsock <==> f in old(allsock))
    {
      hide Sockets;
      if sep.fd >= 0 {
        if sep.maxchild > 0 && sep.numchild == sep.maxchild {
          if sep.fd in allsock {
            Disable(sep);
          }
        } else {
          if sep.fd !in allsock {
            Enable(sep);
          }
        }
      }
    }

    /** A service that is new in the configuration, not opened yet. */
    method Enter(limit: int) returns (sep: Servtab)
      requires Valid()
      modifies `servtab
      ensures Valid() && fresh(sep) && servtab == [sep] + old(servtab)
      ensures sep.fd == -1 && sep.maxchild == limit && sep.kids == multiset{}
    {
      sep := new Servtab(limit);
      assert sep.pids[..0] == [];
      ghost var was := servtab;
      servtab := [sep] + servtab;
      forall s {:trigger s in servtab} | s in servtab
        ensures s == sep || s in was
      {
      }
    }

    /** A service that is no longer in the configuration, closed and unlinked. */
    method Purge(i: nat)
      requires Valid() && i < |servtab|
      modifies `allsock, `maxsock, `servtab, servtab
      ensures Valid() && servtab == old(servtab)[..i] + old(servtab)[i + 1..]
      ensures forall s {:trigger s in servtab} :: s in servtab ==> s.kids == old(s.kids) && s.fd == old(s.fd)
    {
      var sep := servtab[i];
      CloseSep(sep);
      ghost var was := servtab;
      servtab := servtab[..i] + servtab[i + 1..];
      Unlinked(was, i);
    }

    /** A socket the kernel may hand out: one that is not in use. */
    predicate Unused(sock: int)
      reads `servtab, servtab`fd
    {
      sock >= 0 && sock != signalpipe && forall s {:trigger s.fd} :: s in servtab ==> s.fd != sock
    }

    /** One event. `ok` says that it was not the start of a child for a service at its limit. An event for a service that
        is not there, or not in the state the event takes it to be in, does nothing. */
    method Do(e: Event) returns (ok: bool)
      requires Valid()
      modifies this, servtab
      ensures fresh(set s | s in servtab && s !in old(servtab))
      ensures ok <==> Valid()
      ensures !ok <==> e.Serve? && e.i < |old(servtab)| && old(servtab[e.i].fd >= 0 && servtab[e.i].AtLimit())
      ensures !ok ==> servtab == old(servtab) && servtab[e.i].numchild == servtab[e.i].maxchild + 1 > 1
    {
      hide Valid;
      ok := true;
      match e
      case Serve(i, pid) =>
        if i < |servtab| && servtab[i].fd >= 0 {
          ok := !servtab[i].AtLimit();
          AddChild(servtab[i], pid);
        }
      case Exited(pid) => var at := Reap(pid);
      case Close(i) =>
        if i < |servtab| {
          CloseSep(servtab[i]);
        }
      case Open(i, sock, bound) =>
        if i < |servtab| && servtab[i].fd == -1 && (sock.None? || Unused(sock.value)) {
          Setup(servtab[i], sock, bound);
        }
      case Reread(i, limit) =>
        if i < |servtab| {
          Reconfigure(servtab[i], limit);
        }
      case Added(limit) => var sep := Enter(limit);
      case Dropped(i) =>
        if i < |servtab| {
          Purge(i);
        }
    }

    /** Any run of events: it goes through to the end, with everything in order, unless a child is started for a service
        at its limit; it ends there, with one child more than the limit allows. `n` is the number of events before. */
    method Run(es: seq<Event>) returns (n: nat)
      requires Valid()
      modifies this, servtab
      ensures n <= |es| && (n == |es| <==> Valid())
      ensures n < |es| ==> es[n].Serve? && es[n].i < |servtab|
                           && servtab[es[n].i].numchild == servtab[es[n].i].maxchild + 1 > 1
    {
      n := 0;
      while n < |es|
        invariant n <= |es| && Valid()
        invariant fresh(set s | s in servtab && s !in old(servtab))
      {
        var ok := Do(es[n]);
        if !ok {
          return;
        }
        n := n + 1;
      }
    }

    lemma Unlinked(was: seq<Servtab>, i: nat)
      requires i < |was| && servtab == was[..i] + was[i + 1..]
      requires forall j, k {:trigger was[j], was[k]} :: 0 <= j < k < |was| ==> was[j] != was[k]
      ensures forall s {:trigger s in servtab} :: s in servtab <==> s in was && s != was[i]
    {
      forall s {:trigger s in servtab} | s in was && s != was[i]
        ensures s in servtab
      {
        var j :| 0 <= j < |was| && was[j] == s;
        assert servtab[if j < i then j else j - 1] == s;
      }
      forall s {:trigger s in servtab} | s in servtab
        ensures s in was && s != was[i]
      {
        var j :| 0 <= j < |servtab| && servtab[j] == s;
        assert s == was[if j < i then j else j + 1];
      }
    }
  }

  /** Such a run: a service with one child and a limit of two is readable when the configuration brings its limit down
      to one, and is then served all the same. */
  method ReconfiguredWhileReadable(pipe: int, sock: int, p: int, q: int) returns (d: Inetd, sep: Servtab)
    requires 0 <= pipe && 0 <= sock && pipe != sock
    ensures sep in d.servtab && sep.maxchild == 1 && sep.numchild == 2 && !d.Valid()
  {
    d := new Inetd(pipe, pipe);
    sep := d.Enter(2);
    d.Setup(sep, Some(sock), true);
    d.AddChild(sep, p);
    var readable := d.allsock;
    assert sep.Ok() && d.WatchedIff(sep);
    d.Reconfigure(sep, 1);
    assert sep.Ok() && d.WatchedIff(sep);
    if sep.fd in readable {
      d.AddChild(sep, q);
    } else {
      assert false;
    }
  }
}
