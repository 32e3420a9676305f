/** The increments each point-granting command hands to `add_points`, as pure
    functions of the mentioned ids and of which ids `guild.get_member`
    resolves. */
module Grants {
  import opened Base
  import opened Ledger

  /** The fields and amounts one resolved mention earns, in the order the
      command calls `add_points` for them. */
  type Award = seq<(Category, int)>

  /** What an award adds to field `c`. */
  function AwardSum(award: Award, c: Category): int
  {
    if |award| == 0 then 0
    else AwardSum(award[..|award| - 1], c) + (if award[|award| - 1].0 == c then award[|award| - 1].1 else 0)
  }

  /** The increments one user receives for an award. */
  function AwardTo(u: nat, award: Award): (incs: seq<Inc>)
    ensures |incs| == |award|
    ensures forall i :: 0 <= i < |award| ==> incs[i] == Inc(u, award[i].0, award[i].1)
  {
    if |award| == 0 then [] else AwardTo(u, award[..|award| - 1]) + [Inc(u, award[|award| - 1].0, award[|award| - 1].1)]
  }

  /** An award given to `u` adds its amounts to `u` and nothing to anyone else. */
  lemma {:induction false} AwardToTotal(u: nat, award: Award, v: nat, c: Category)
    ensures Total(AwardTo(u, award), v, c) == if u == v then AwardSum(award, c) else 0
    decreases |award|
  {
    if |award| > 0 {
      var n := |award| - 1;
      var incs := AwardTo(u, award);
      assert incs[..n] == AwardTo(u, award[..n]);
      AwardToTotal(u, award[..n], v, c);
    }
  }

  /** Every mentioned id that resolves to a guild member earns the award,
      once per mention; ids that do not resolve are skipped. */
  function Grant(ids: seq<nat>, members: set<nat>, award: Award): seq<Inc>
  {
    if |ids| == 0 then []
    else
      var last := ids[|ids| - 1];
      Grant(ids[..|ids| - 1], members, award) + (if last in members then AwardTo(last, award) else [])
  }

  /** A member mentioned `n` times gains `n` times the award; a non-member gains nothing. */
  lemma {:induction false} GrantTotal(ids: seq<nat>, members: set<nat>, award: Award, u: nat, c: Category)
    ensures Total(Grant(ids, members, award), u, c)
         == if u in members then Count(ids, u) * AwardSum(award, c) else 0
    decreases |ids|
  {
    if |ids| > 0 {
      var n := |ids| - 1;
      var last := ids[n];
      var prefix := Grant(ids[..n], members, award);
      var tail := if last in members then AwardTo(last, award) else [];
      assert Grant(ids, members, award) == prefix + tail;
      GrantTotal(ids[..n], members, award, u, c);
      TotalAppend(prefix, tail, u, c);
      var k := Count(ids[..n], u);
      var w := AwardSum(award, c);
      assert Count(ids, u) == k + (if last == u then 1 else 0);
      if last in members {
        AwardToTotal(last, award, u, c);
        assert Total(tail, u, c) == if last == u then w else 0;
      } else {
        assert Total(tail, u, c) == 0;
      }
      if u in members {
        assert Total(prefix, u, c) == k * w;
        MulStep(k, w);
      }
    }
  }

  lemma MulStep(k: nat, w: int)
    ensures (k + 1) * w == k * w + w
  {
  }

  /** The three `/addtp` mention lists. */
  datatype TpKind = Mvp | Promo | Attended

  /** `POINT_VALUES`. */
  function PointValue(kind: TpKind): int
  {
    match kind
    case Mvp => 3
    case Promo => 2
    case Attended => 1
  }

  /** `/addtp`: one training point for the caller first, then the mvp, promo
      and attended mentions in that order, each worth its point value. */
  function TpIncrements(caller: nat, mvp: seq<nat>, promo: seq<nat>, attended: seq<nat>, members: set<nat>): seq<Inc>
  {
    [Inc(caller, TP, 1)]
      + Grant(mvp, members, [(TP, PointValue(Mvp))])
      + Grant(promo, members, [(TP, PointValue(Promo))])
      + Grant(attended, members, [(TP, PointValue(Attended))])
  }

  /** An award of a single field. */
  lemma SingleAward(c0: Category, w: int, c: Category)
    ensures AwardSum([(c0, w)], c) == if c == c0 then w else 0
  {
    assert [(c0, w)][..0] == [];
  }

  /** The points `/addtp` promises a user: +1 for the caller, and for a
      member 3, 2 and 1 per mvp, promo and attended mention. */
  function TpEarned(caller: nat, mvp: seq<nat>, promo: seq<nat>, attended: seq<nat>, members: set<nat>, u: nat): int
  {
    var own := if u == caller then 1 else 0;
    var mentioned := if u in members then 3 * Count(mvp, u) + 2 * Count(promo, u) + Count(attended, u) else 0;
    own + mentioned
  }

  /** What `/addtp` adds: exactly the promised training points, and nothing
      to any other field. */
  lemma TpIncrementsTotal(caller: nat, mvp: seq<nat>, promo: seq<nat>, attended: seq<nat>, members: set<nat>, u: nat, c: Category)
    ensures Total(TpIncrements(caller, mvp, promo, attended, members), u, c)
         == if c == TP then TpEarned(caller, mvp, promo, attended, members, u) else 0
  {
    var a := [Inc(caller, TP, 1)];
    var g1 := Grant(mvp, members, [(TP, 3)]);
    var g2 := Grant(promo, members, [(TP, 2)]);
    var g3 := Grant(attended, members, [(TP, 1)]);
    assert TpIncrements(caller, mvp, promo, attended, members) == a + g1 + g2 + g3;
    TotalAppend(a, g1, u, c);
    TotalAppend(a + g1, g2, u, c);
    TotalAppend(a + g1 + g2, g3, u, c);
    assert a[..0] == [];
    assert Total(a, u, c) == if u == caller && c == TP then 1 else 0;
    GrantTotal(mvp, members, [(TP, 3)], u, c);
    GrantTotal(promo, members, [(TP, 2)], u, c);
    GrantTotal(attended, members, [(TP, 1)], u, c);
    SingleAward(TP, 3, c);
    SingleAward(TP, 2, c);
    SingleAward(TP, 1, c);
  }

  /** Some mention in one of the three lists resolves to a guild member. */
  predicate AnyValidMention(mvp: seq<nat>, promo: seq<nat>, attended: seq<nat>, members: set<nat>)
  {
    (exists i :: 0 <= i < |mvp| && mvp[i] in members)
    || (exists i :: 0 <= i < |promo| && promo[i] in members)
    || (exists i :: 0 <= i < |attended| && attended[i] in members)
  }

  /** Without a single resolvable mention nobody is granted anything and only
      the caller's own training point remains. */
  lemma {:induction false} GrantNoneResolved(ids: seq<nat>, members: set<nat>, award: Award)
    requires forall i :: 0 <= i < |ids| ==> ids[i] !in members
    ensures Grant(ids, members, award) == []
    decreases |ids|
  {
    if |ids| > 0 {
      GrantNoneResolved(ids[..|ids| - 1], members, award);
    }
  }

  lemma TpIncrementsOnlyCaller(caller: nat, mvp: seq<nat>, promo: seq<nat>, attended: seq<nat>, members: set<nat>)
    requires !AnyValidMention(mvp, promo, attended, members)
    ensures TpIncrements(caller, mvp, promo, attended, members) == [Inc(caller, TP, 1)]
  {
    GrantNoneResolved(mvp, members, [(TP, 3)]);
    GrantNoneResolved(promo, members, [(TP, 2)]);
    GrantNoneResolved(attended, members, [(TP, 1)]);
  }

  /** `/addra`: each resolved member gets +1 raid point then +2 mission
      points, then each resolved extra gets +1 mission point. */
  function RaIncrements(raiders: seq<nat>, extras: seq<nat>, members: set<nat>): seq<Inc>
  {
    Grant(raiders, members, [(RP, 1), (MP, 2)]) + Grant(extras, members, [(MP, 1)])
  }

  lemma RaIncrementsTotal(raiders: seq<nat>, extras: seq<nat>, members: set<nat>, u: nat, c: Category)
    ensures Total(RaIncrements(raiders, extras, members), u, c)
         == if u !in members then 0
            else if c == RP then Count(raiders, u)
            else if c == MP then 2 * Count(raiders, u) + Count(extras, u)
            else 0
  {
    TotalAppend(Grant(raiders, members, [(RP, 1), (MP, 2)]), Grant(extras, members, [(MP, 1)]), u, c);
    GrantTotal(raiders, members, [(RP, 1), (MP, 2)], u, c);
    GrantTotal(extras, members, [(MP, 1)], u, c);
    assert [(RP, 1), (MP, 2)][..1] == [(RP, 1)];
    SingleAward(RP, 1, c);
    SingleAward(MP, 1, c);
  }

  /** `/addwar`: +1 war point per resolved mention. */
  function WarIncrements(ids: seq<nat>, members: set<nat>): seq<Inc>
  {
    Grant(ids, members, [(WP, 1)])
  }

  lemma WarIncrementsTotal(ids: seq<nat>, members: set<nat>, u: nat, c: Category)
    ensures Total(WarIncrements(ids, members), u, c)
         == if u in members && c == WP then Count(ids, u) else 0
  {
    GrantTotal(ids, members, [(WP, 1)], u, c);
    SingleAward(WP, 1, c);
  }

  /** `/addeve`: +1 event point then +1 mission point per resolved mention. */
  function EveIncrements(ids: seq<nat>, members: set<nat>): seq<Inc>
  {
    Grant(ids, members, [(EVE, 1), (MP, 1)])
  }

  lemma EveIncrementsTotal(ids: seq<nat>, members: set<nat>, u: nat, c: Category)
    ensures Total(EveIncrements(ids, members), u, c)
         == if u in members && (c == EVE || c == MP) then Count(ids, u) else 0
  {
    GrantTotal(ids, members, [(EVE, 1), (MP, 1)], u, c);
    assert [(EVE, 1), (MP, 1)][..1] == [(EVE, 1)];
    SingleAward(EVE, 1, c);
  }

  /** `/addall`: the training points if positive, then the mission points if positive. */
  function AllIncrements(member: nat, tp: nat, mp: nat): seq<Inc>
  {
    (if tp > 0 then [Inc(member, TP, tp)] else []) + (if mp > 0 then [Inc(member, MP, mp)] else [])
  }

  lemma AllIncrementsTotal(member: nat, tp: nat, mp: nat, u: nat, c: Category)
    ensures Total(AllIncrements(member, tp, mp), u, c)
         == if u != member then 0 else if c == TP then tp else if c == MP then mp else 0
  {
    var a := if tp > 0 then [Inc(member, TP, tp)] else [];
    var b := if mp > 0 then [Inc(member, MP, mp)] else [];
    TotalAppend(a, b, u, c);
    assert |a| > 0 ==> a[..0] == [];
    assert |b| > 0 ==> b[..0] == [];
  }
}
