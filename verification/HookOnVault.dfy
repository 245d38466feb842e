/** The hook against a live vault: what it makes of a command, told by the vault's entries or its history. */
module HookOnVault {
  import opened ByteText
  import opened Hosts
  import opened Restore
  import D = Daemon
  import H = History
  import V = Vault

  /** A live entry with a value is bound, for one of the hosts of the command. */
  ghost predicate Reachable(s: V.State, ph: Bytes, hosts: seq<Bytes>) {
    ph in s.byPH && s.byPH[ph].value != [] && exists host :: host in hosts && D.BoundFor(s.byPH[ph].bindings, host)
  }

  /** The host loop finds the value of an entry exactly when some host of the command is bound to it, whatever their order. */
  lemma {:induction false} LookupOnVault(s: V.State, ph: Bytes, hosts: seq<Bytes>)
    requires !s.closed
    ensures LookupOn(ph, hosts, D.Resolver(s)) == if Reachable(s, ph, hosts) then Found(s.byPH[ph].value) else Missing
  {
    if hosts != [] {
      D.ReplyExactly(s, ph, hosts[0]);
      LookupOnVault(s, ph, hosts[1..]);
      assert forall host :: host in hosts <==> host == hosts[0] || host in hosts[1..];
    }
  }

  /** Against a vault the hook gives up on a command exactly when there is something to resolve and the vault is closed. */
  lemma FailsOnClosedExactly(s: V.State, cmd: Bytes, hosts: seq<Bytes>)
    ensures Substituted(cmd, hosts, D.Resolver(s)) == Error <==> s.closed && hosts != [] && FindAll(cmd) != []
  {
    HookFailsExactly(cmd, hosts, D.Resolver(s));
    if s.closed && hosts != [] && FindAll(cmd) != [] {
      assert AbortsAt(FindAll(cmd)[0], hosts, 0, D.Resolver(s));
    }
    if !s.closed {
      forall ph, i: nat ensures !AbortsAt(ph, hosts, i, D.Resolver(s)) {
        if i < |hosts| { D.ReplyExactly(s, ph, hosts[i]); }
      }
    }
  }

  /** The value a command may be given for a placeholder is the last one its history gave it, for the hosts last bound. */
  lemma LookupByHistory(ops: seq<V.Op>, mk: V.Derivation, ph: Bytes, hosts: seq<Bytes>)
    requires V.AdmissibleRun(V.EMPTY, ops, mk) && H.NoClose(ops)
    ensures LookupOn(ph, hosts, D.Resolver(V.Run(V.EMPTY, ops, mk))) ==
      match H.LifeIn(ops, mk, ph)
      case None => Missing
      case Some(l) =>
        if l.value != [] && exists host, pat :: host in hosts && pat in l.hosts && Admits(pat, host)
        then Found(l.value) else Missing
  {
    var s := V.Run(V.EMPTY, ops, mk);
    H.KnownByHistory(ops, mk);
    LookupOnVault(s, ph, hosts);
    assert H.LifeOf(s, ph) == H.LifeIn(ops, mk, ph);
    if ph in s.byPH {
      assert forall pat :: pat in s.byPH[ph].bindings <==> pat in H.LifeOf(s, ph).value.hosts;
    }
  }
}
