/** Permission changes laid over an app's catalog. */
module OperationPolicy {
  import opened Wrappers
  import opened Catalogs

  /** An absent id inherits the catalog's roles; an empty role list disables the operation. */
  type AppOperationPolicy = map<string, seq<string>>

  function Resolve(p: AppOperationPolicy, id: string, roles: seq<string>): (seq<string>, bool) {
    if id !in p then (roles, true) else (p[id], |p[id]| > 0)
  }

  predicate Kept(p: AppOperationPolicy, op: CatalogOperation) {
    op.id in p ==> p[op.id] != []
  }

  function WithRoles(p: AppOperationPolicy, op: CatalogOperation): CatalogOperation {
    if op.id in p then op.(allowedRoles := p[op.id]) else op
  }

  /** The operations the policy leaves, in order, with the roles it gives them. */
  function Applied(p: AppOperationPolicy, ops: seq<CatalogOperation>): (r: seq<CatalogOperation>)
    ensures |r| <= |ops|
  {
    if ops == [] then []
    else
      var n := |ops| - 1;
      if Kept(p, ops[n]) then Applied(p, ops[..n]) + [WithRoles(p, ops[n])] else Applied(p, ops[..n])
  }

  lemma AppliedNext(p: AppOperationPolicy, ops: seq<CatalogOperation>, i: nat)
    requires i < |ops|
    ensures Applied(p, ops[..i + 1]) == Applied(p, ops[..i]) + if Kept(p, ops[i]) then [WithRoles(p, ops[i])] else []
  {
    assert ops[..i + 1][..i] == ops[..i];
  }

  /** Writes the kept operations over the front of the slice that is still being read. */
  method CompactInPlace(p: AppOperationPolicy, ops: array<CatalogOperation>) returns (length: nat)
    modifies ops
    ensures length <= ops.Length && ops[..length] == Applied(p, old(ops[..]))
  {
    ghost var before := ops[..];
    length := 0;
    for i := 0 to ops.Length
      invariant length <= i
      invariant ops[..length] == Applied(p, before[..i])
      invariant forall k :: i <= k < ops.Length ==> ops[k] == before[k]
    {
      AppliedNext(p, before, i);
      var operation := ops[i];
      var (roles, allowed) := Resolve(p, operation.id, operation.allowedRoles);
      if allowed {
        ops[length] := operation.(allowedRoles := roles);
        length := length + 1;
      }
    }
    assert before[..ops.Length] == before;
  }

  /** Applies a policy to a clone; without overrides the baseline itself is returned. */
  method ApplyPolicy(p: AppOperationPolicy, baseline: array?<CatalogOperation>)
    returns (result: array?<CatalogOperation>, length: nat)
    ensures baseline == null ==> result == null && length == 0
    ensures baseline != null ==> baseline[..] == old(baseline[..])
    ensures baseline != null && p == map[] ==> result == baseline && length == baseline.Length
    ensures baseline != null && p != map[] ==> fresh(result)
    ensures baseline != null ==>
              result != null && length <= result.Length && result[..length] == Applied(p, baseline[..])
  {
    if baseline == null {
      return null, 0;
    }
    if p == map[] {
      AppliedNothing(p, baseline[..]);
      return baseline, baseline.Length;
    }
    var ops := new CatalogOperation[baseline.Length](i requires 0 <= i < baseline.Length reads baseline => baseline[i]);
    assert ops[..] == baseline[..];
    length := CompactInPlace(p, ops);
    result := ops;
  }

  lemma {:induction false} AppliedNothing(p: AppOperationPolicy, ops: seq<CatalogOperation>)
    requires p == map[]
    ensures Applied(p, ops) == ops
  {
    if ops != [] {
      AppliedNothing(p, ops[..|ops| - 1]);
      assert ops == ops[..|ops| - 1] + [ops[|ops| - 1]];
    }
  }

  /** Exactly the kept operations survive, each with the policy's roles. */
  lemma {:induction false} AppliedMembers(p: AppOperationPolicy, ops: seq<CatalogOperation>, op: CatalogOperation)
    ensures op in Applied(p, ops) <==>
            exists o :: && o in ops && (o.id in p ==> |p[o.id]| > 0)
                        && op == if o.id in p then o.(allowedRoles := p[o.id]) else o
  {
    if ops != [] {
      var n := |ops| - 1;
      assert ops == ops[..n] + [ops[n]];
      AppliedMembers(p, ops[..n], op);
    }
  }

  lemma {:induction false} AppliedAppend(p: AppOperationPolicy, a: seq<CatalogOperation>, b: seq<CatalogOperation>)
    ensures Applied(p, a + b) == Applied(p, a) + Applied(p, b)
  {
    if b == [] {
      assert a + b == a;
    } else {
      var n := |b| - 1;
      assert (a + b)[..|a| + n] == a + b[..n];
      AppliedAppend(p, a, b[..n]);
    }
  }

  /** Applying a policy twice is applying it once. */
  lemma {:induction false} AppliedIdempotent(p: AppOperationPolicy, ops: seq<CatalogOperation>)
    ensures Applied(p, Applied(p, ops)) == Applied(p, ops)
  {
    if ops != [] {
      var n := |ops| - 1;
      AppliedIdempotent(p, ops[..n]);
      if Kept(p, ops[n]) {
        AppliedAppend(p, Applied(p, ops[..n]), [WithRoles(p, ops[n])]);
        assert Applied(p, [WithRoles(p, ops[n])]) == [WithRoles(p, ops[n])];
      }
    }
  }
}
