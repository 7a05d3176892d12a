/** mme/MME.c: allocation of MME UE S1AP identifiers, 1 to MAX_UE, 0 when none is left. */
module UeIds {
  const MAX_UE: nat := 500000

  /** The smallest identifier from `from` on that is not in use, 0 if there is none. */
  function LeastFree(ids: set<nat>, from: nat): (r: nat)
    requires 1 <= from <= MAX_UE + 1
    ensures r == 0 <==> forall j: nat :: from <= j <= MAX_UE ==> j in ids
    ensures r != 0 ==> from <= r <= MAX_UE && r !in ids && forall j: nat :: from <= j < r ==> j in ids
    decreases MAX_UE + 1 - from
  {
    if from > MAX_UE then 0 else if from !in ids then from else LeastFree(ids, from + 1)
  }

  function Grant(ids: set<nat>): nat {
    LeastFree(ids, 1)
  }

  function AfterNew(ids: set<nat>): set<nat> {
    if Grant(ids) == 0 then ids else ids + {Grant(ids)}
  }

  class Mme {
    var s1LocalIds: set<nat>

    constructor ()
      ensures s1LocalIds == {}
    {
      s1LocalIds := {};
    }

    /** mme_newLocalUEid */
    method NewLocalUeId() returns (id: nat)
      modifies this
      ensures id == Grant(old(s1LocalIds))
      ensures s1LocalIds == AfterNew(old(s1LocalIds))
    {
      var i := 1;
      while i <= MAX_UE
        invariant 1 <= i <= MAX_UE + 1
        invariant s1LocalIds == old(s1LocalIds)
        invariant Grant(s1LocalIds) == LeastFree(s1LocalIds, i)
      {
        if i !in s1LocalIds {
          s1LocalIds := s1LocalIds + {i};
          return i;
        }
        i := i + 1;
      }
      return 0;
    }

    /** mme_freeLocalUEid; releasing an identifier not in use is logged only. */
    method FreeLocalUeId(id: nat)
      modifies this
      ensures s1LocalIds == old(s1LocalIds) - {id}
    {
      s1LocalIds := s1LocalIds - {id};
    }
  }

  datatype Op = New | Free(id: nat)

  function Step(ids: set<nat>, op: Op): set<nat> {
    match op
    case New => AfterNew(ids)
    case Free(id) => ids - {id}
  }

  function Exec(ids: set<nat>, ops: seq<Op>): set<nat> {
    if ops == [] then ids else Step(Exec(ids, ops[..|ops| - 1]), ops[|ops| - 1])
  }

  predicate Within(j: nat, n: nat) {
    1 <= j <= n
  }

  function UpTo(n: nat): set<nat> {
    set j: nat | j <= n && Within(j, n)
  }

  lemma {:induction false} UpToSize(n: nat)
    ensures |UpTo(n)| == n
  {
    if n == 0 {
      assert UpTo(0) == {};
    } else {
      UpToSize(n - 1);
      assert UpTo(n) == UpTo(n - 1) + {n};
    }
  }

  lemma SubsetSize(a: set<nat>, b: set<nat>)
    requires a <= b
    ensures |a| <= |b| && (|a| == |b| ==> a == b)
  {
    assert b == a + (b - a) && a !! (b - a);
    if |a| == |b| {
      assert b - a == {};
    }
  }

  /** Identifiers are dense: a grant exceeds the number in use by one at most, and fails only when MAX_UE are in use. */
  lemma GrantBounds(ids: set<nat>)
    requires ids <= UpTo(MAX_UE)
    ensures Grant(ids) <= |ids| + 1
    ensures Grant(ids) == 0 <==> |ids| == MAX_UE
  {
    var g := Grant(ids);
    UpToSize(MAX_UE);
    SubsetSize(ids, UpTo(MAX_UE));
    if g == 0 {
      assert ids == UpTo(MAX_UE);
    } else {
      UpToSize(g - 1);
      assert UpTo(g - 1) <= ids;
      SubsetSize(UpTo(g - 1), ids);
      assert g in UpTo(MAX_UE) && g !in ids;
    }
  }

  lemma {:induction false} InRange(ops: seq<Op>)
    ensures Exec({}, ops) <= UpTo(MAX_UE)
  {
    if ops != [] {
      InRange(ops[..|ops| - 1]);
    }
  }

  /** In every run the next request fails exactly when MAX_UE identifiers are outstanding. */
  lemma EveryRunGrants(ops: seq<Op>)
    ensures var ids := Exec({}, ops);
            && Grant(ids) !in ids && Grant(ids) <= |ids| + 1 && |ids| <= 500000
            && (Grant(ids) == 0 <==> |ids| == 500000)
  {
    InRange(ops);
    GrantBounds(Exec({}, ops));
    UpToSize(MAX_UE);
    SubsetSize(Exec({}, ops), UpTo(MAX_UE));
  }

  /** Not released, an identifier stays in use. */
  lemma {:induction false} Kept(ids: set<nat>, ops: seq<Op>, a: nat, id: nat)
    requires a <= |ops| && id in Exec(ids, ops[..a]) && Free(id) !in ops[a..]
    ensures id in Exec(ids, ops)
    decreases |ops|
  {
    if a < |ops| {
      var front := ops[..|ops| - 1];
      assert front[..a] == ops[..a] && front[a..] == ops[a..][..|ops| - 1 - a];
      assert ops[|ops| - 1] == ops[a..][|ops| - 1 - a];
      Kept(ids, front, a, id);
    } else {
      assert ops[..a] == ops;
    }
  }

  /** No identifier is handed out twice unless it was released in between. */
  lemma ReleasedBetween(ops: seq<Op>, a: nat, b: nat)
    requires a < b < |ops| && ops[a] == New && ops[b] == New
    requires Grant(Exec({}, ops[..a])) == Grant(Exec({}, ops[..b])) != 0
    ensures Free(Grant(Exec({}, ops[..a]))) in ops[a + 1..b]
  {
    var id := Grant(Exec({}, ops[..a]));
    var upTo := ops[..b];
    if Free(id) !in ops[a + 1..b] {
      assert upTo[..a + 1][..a] == ops[..a] && upTo[a + 1..] == ops[a + 1..b];
      Kept({}, upTo, a + 1, id);
    }
  }
}
