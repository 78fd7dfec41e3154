/** Expires the daemon only if every child strategy would expire it. */
module AllExpiration {
  import opened Expiration
  import opened Joiner

  /** The literal placed between the children's reasons. */
  const ReasonSeparator: string := " and "

  /** Every verdict votes to expire. */
  predicate AllExpired(vs: seq<DaemonExpirationResult>)
  {
    forall i :: 0 <= i < |vs| ==> vs[i].expired
  }

  /** OR of the `immediate` flags, folded left to right from `false`. */
  function AnyImmediate(vs: seq<DaemonExpirationResult>): bool
  {
    if |vs| == 0 then false else AnyImmediate(vs[..|vs| - 1]) || vs[|vs| - 1].immediate
  }

  /** AND of the `terminated` flags, folded left to right from `true`. */
  function AllTerminated(vs: seq<DaemonExpirationResult>): bool
  {
    if |vs| == 0 then true else AllTerminated(vs[..|vs| - 1]) && vs[|vs| - 1].terminated
  }

  /** The children's reasons in child order, nulls included. */
  function ReasonsOf(vs: seq<DaemonExpirationResult>): (r: seq<Option<string>>)
  {
    seq(|vs|, i requires 0 <= i < |vs| => vs[i].reason)
  }

  /** The combined verdict of children that returned `vs`, in order. */
  function Combine(vs: seq<DaemonExpirationResult>): DaemonExpirationResult
  {
    if |vs| == 0 || !AllExpired(vs) then DoNotExpire
    else DaemonExpirationResult(true, AnyImmediate(vs), AllTerminated(vs),
                                Some(JoinSkipNulls(ReasonSeparator, ReasonsOf(vs))))
  }

  /** Position of the first child that does not expire, or |vs| when all do. */
  function FirstKeepAlive(vs: seq<DaemonExpirationResult>): (k: nat)
    ensures k <= |vs|
    ensures forall j :: 0 <= j < k ==> vs[j].expired
    ensures k < |vs| ==> !vs[k].expired
  {
    if |vs| == 0 || !vs[0].expired then 0 else 1 + FirstKeepAlive(vs[1..])
  }

  /** How many children are asked before the answer is known. */
  function Consulted(vs: seq<DaemonExpirationResult>): nat
  {
    var k := FirstKeepAlive(vs);
    if k < |vs| then k + 1 else |vs|
  }

  class AllDaemonExpirationStrategy<Daemon> {
    /** The child strategies, in evaluation order; each is modelled as the
        verdict it returns for a given daemon. */
    const expirationStrategies: seq<Daemon -> DaemonExpirationResult>

    constructor (expirationStrategies: seq<Daemon -> DaemonExpirationResult>)
      ensures this.expirationStrategies == expirationStrategies
    {
      this.expirationStrategies := expirationStrategies;
    }

    /** What every child would return for `daemon`. */
    function Outcomes(daemon: Daemon): seq<DaemonExpirationResult>
    {
      seq(|expirationStrategies|, i requires 0 <= i < |expirationStrategies| => expirationStrategies[i](daemon))
    }

    /** Asks the children in order, stopping at the first that keeps the
        daemon alive; `consulted` is how many children were asked. */
    method CheckExpiration(daemon: Daemon) returns (r: DaemonExpirationResult, consulted: nat)
      ensures r == Combine(Outcomes(daemon))
      ensures consulted == Consulted(Outcomes(daemon))
    {
      ghost var outs := Outcomes(daemon);
      var expirationResult := DoNotExpire;
      var reasons: seq<Option<string>> := [];
      var terminated := true;
      var immediate := false;
      var i := 0;
      while i < |expirationStrategies|
        invariant i <= |expirationStrategies|
        invariant AllExpired(outs[..i])
        invariant immediate == AnyImmediate(outs[..i])
        invariant terminated == AllTerminated(outs[..i])
        invariant reasons == ReasonsOf(outs[..i])
        invariant i == 0 ==> expirationResult == DoNotExpire
        invariant i > 0 ==> expirationResult.expired
      {
        expirationResult := expirationStrategies[i](daemon);
        assert outs[..i + 1][..i] == outs[..i];
        assert outs[i] == expirationResult;
        if !expirationResult.expired {
          assert forall j :: 0 <= j < i ==> outs[j] == outs[..i][j];
          return DoNotExpire, i + 1;
        } else {
          immediate := immediate || expirationResult.immediate;
          terminated := terminated && expirationResult.terminated;
          reasons := reasons + [expirationResult.reason];
        }
        i := i + 1;
      }
      assert outs[..i] == outs;
      consulted := i;
      if !expirationResult.expired {
        r := expirationResult;
      } else {
        r := DaemonExpirationResult(true, immediate, terminated, Some(JoinSkipNulls(ReasonSeparator, reasons)));
      }
    }
  }

  /** The OR fold holds exactly when some child asks for immediate expiry. */
  lemma {:induction false} AnyImmediateIffExists(vs: seq<DaemonExpirationResult>)
    ensures AnyImmediate(vs) <==> exists i :: 0 <= i < |vs| && vs[i].immediate
  {
    if |vs| > 0 {
      var init := vs[..|vs| - 1];
      AnyImmediateIffExists(init);
      if AnyImmediate(init) {
        var i :| 0 <= i < |init| && init[i].immediate;
        assert vs[i] == init[i];
      }
      if j :| 0 <= j < |vs| && vs[j].immediate {
        if j < |vs| - 1 {
          assert init[j] == vs[j];
        }
      }
    }
  }

  /** The AND fold holds exactly when every child reports termination. */
  lemma {:induction false} AllTerminatedIffForall(vs: seq<DaemonExpirationResult>)
    ensures AllTerminated(vs) <==> forall i :: 0 <= i < |vs| ==> vs[i].terminated
  {
    if |vs| > 0 {
      var init := vs[..|vs| - 1];
      AllTerminatedIffForall(init);
      if AllTerminated(vs) {
        forall i | 0 <= i < |vs| ensures vs[i].terminated {
          if i < |vs| - 1 {
            assert init[i] == vs[i];
          }
        }
      }
      if forall i :: 0 <= i < |vs| ==> vs[i].terminated {
        forall i | 0 <= i < |init| ensures init[i].terminated {
          assert init[i] == vs[i];
        }
      }
    }
  }

  /** The daemon is kept alive exactly when there are no children or some
      child, at any position, does not expire it. */
  lemma KeepAliveIff(vs: seq<DaemonExpirationResult>)
    ensures Combine(vs) == DoNotExpire <==> |vs| == 0 || exists i :: 0 <= i < |vs| && !vs[i].expired
    ensures Combine(vs).expired <==> |vs| > 0 && forall i :: 0 <= i < |vs| ==> vs[i].expired
  {
  }

  /** With no children the daemon never expires. */
  lemma NoChildrenKeepAlive()
    ensures Combine([]) == DoNotExpire
  {
  }

  /** Once every child expires, the combined verdict expires, is immediate if
      any child is, is terminated if all children are, and carries the
      non-null reasons in child order joined with " and ". */
  lemma AllExpireCombined(vs: seq<DaemonExpirationResult>)
    requires |vs| > 0
    requires forall i :: 0 <= i < |vs| ==> vs[i].expired
    ensures Combine(vs).expired
    ensures Combine(vs).immediate <==> exists i :: 0 <= i < |vs| && vs[i].immediate
    ensures Combine(vs).terminated <==> forall i :: 0 <= i < |vs| ==> vs[i].terminated
    ensures Combine(vs).reason == Some(JoinSkipNulls(ReasonSeparator, ReasonsOf(vs)))
  {
    AnyImmediateIffExists(vs);
    AllTerminatedIffForall(vs);
  }

  /** Children expiring without reasons give the empty reason, not null. */
  lemma AllReasonsNullGivesEmpty(vs: seq<DaemonExpirationResult>)
    requires |vs| > 0
    requires forall i :: 0 <= i < |vs| ==> vs[i].expired && vs[i].reason.None?
    ensures Combine(vs).reason == Some("")
  {
    AllNullsJoinEmpty(ReasonSeparator, ReasonsOf(vs));
  }

  /** One expiring child with a reason is passed through field for field. */
  lemma SingleChildPassesThrough(v: DaemonExpirationResult)
    requires v.expired && v.reason.Some?
    ensures Combine([v]) == v
  {
    assert [v][..0] == [];
    assert AnyImmediate([v]) == v.immediate;
    assert AllTerminated([v]) == v.terminated;
    var none: seq<Option<string>> := [];
    assert ReasonsOf([v]) == none + [Some(v.reason.value)] + none;
    SingleJoinsToItself(ReasonSeparator, none, v.reason.value, none);
  }

  /** The children after the first one that keeps the daemon alive are not
      asked: exactly that child's position plus one are consulted. */
  lemma ConsultedUpToFirstKeepAlive(vs: seq<DaemonExpirationResult>, k: nat)
    requires k < |vs| && !vs[k].expired
    requires forall j :: 0 <= j < k ==> vs[j].expired
    ensures Consulted(vs) == k + 1
  {
  }

  /** When every child expires, every child is consulted. */
  lemma ConsultedAllWhenAllExpire(vs: seq<DaemonExpirationResult>)
    requires forall i :: 0 <= i < |vs| ==> vs[i].expired
    ensures Consulted(vs) == |vs|
  {
  }

  /** Children "idle", no reason and "low memory" give "idle and low memory". */
  lemma ReasonsJoinExample(v1: DaemonExpirationResult, v2: DaemonExpirationResult, v3: DaemonExpirationResult)
    requires v1.expired && v2.expired && v3.expired
    requires v1.reason == Some("idle") && v2.reason.None? && v3.reason == Some("low memory")
    ensures Combine([v1, v2, v3]).reason == Some("idle and low memory")
  {
    var parts := [Some("idle"), None, Some("low memory")];
    assert ReasonsOf([v1, v2, v3]) == parts;
    assert parts[1..][1..] == [Some("low memory")] && parts[1..][1..][1..] == [];
    var joined := ["idle", "low memory"];
    assert Present(parts) == joined;
    assert joined[1..] == ["low memory"];
    assert Join(ReasonSeparator, joined) == "idle and low memory";
  }

  /** A keep-alive child in the middle wins over expiring neighbours. */
  lemma ShortCircuitExample(a: DaemonExpirationResult, b: DaemonExpirationResult, c: DaemonExpirationResult)
    requires a.expired && !b.expired && c.expired
    ensures Combine([a, b, c]) == DoNotExpire
    ensures Consulted([a, b, c]) == 2
  {
    assert [a, b, c][1] == b;
  }
}
