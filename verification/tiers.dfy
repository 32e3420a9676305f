/** Level-tier resolution from a member's role ids: the first base tier held,
    from Legend down to Low, decorated with the star role ⁂ (three stars) or,
    failing that, ⁑ (two stars); and `parse_tier_components`, which reads
    such a tier string back into the sort key of the leaderboard. */
module Tiers {
  import opened Base
  import opened Text

  /** `tier_order`, highest tier first. */
  const TierOrder: seq<string> := [
    "\U{2729} Legend-Tier", "\U{2605} Ashenlight-Tier", "Celestial-Tier", "Elite-Tier",
    "High-Tier", "Middle-Tier", "Low-Tier"
  ]

  /** The star role names `[ ⁂ ]` and `[ ⁑ ]`. */
  const ThreeStars: string := "[ \U{2042} ]"
  const TwoStars: string := "[ \U{2051} ]"

  /** `tier_roles`: the role id of every base tier and of both star roles. */
  const TierRoles: map<string, nat> := map[
    "\U{2729} Legend-Tier" := 1383883524783996998,
    "\U{2605} Ashenlight-Tier" := 1383882778474578080,
    "Celestial-Tier" := 1383882358343733330,
    "Elite-Tier" := 1383878896578986086,
    "High-Tier" := 1383020440993271839,
    "Middle-Tier" := 1383020382071820328,
    "Low-Tier" := 1383019912762626108,
    ThreeStars := 1384516311354445965,
    TwoStars := 1384186134891855872
  ]

  /** The member holds the role of tier `name`; a name without a role id is never held. */
  predicate Holds(roleIds: seq<nat>, name: string)
  {
    name in TierRoles && TierRoles[name] in roleIds
  }

  /** The loop over `tier_order` from position `k` on: the position of the
      first tier held, if any. */
  function BaseTierFrom(roleIds: seq<nat>, k: nat): (r: Option<nat>)
    requires k <= |TierOrder|
    ensures r.Some? ==> k <= r.value < |TierOrder| && Holds(roleIds, TierOrder[r.value])
    ensures r.Some? ==> forall j :: k <= j < r.value ==> !Holds(roleIds, TierOrder[j])
    ensures r.None? <==> forall j :: k <= j < |TierOrder| ==> !Holds(roleIds, TierOrder[j])
    decreases |TierOrder| - k
  {
    if k == |TierOrder| then None
    else if Holds(roleIds, TierOrder[k]) then Some(k)
    else BaseTierFrom(roleIds, k + 1)
  }

  /** The position in `tier_order` of the member's base tier. */
  function BaseTier(roleIds: seq<nat>): Option<nat>
  {
    BaseTierFrom(roleIds, 0)
  }

  /** Star count: ⁂ wins over ⁑, and neither gives 0. */
  function Stars(roleIds: seq<nat>): nat
  {
    if Holds(roleIds, ThreeStars) then 3
    else if Holds(roleIds, TwoStars) then 2
    else 0
  }

  /** The tier text for a base tier and a star count, `f"{base} [ ⁂ ]"` and so on. */
  function TierString(base: nat, stars: nat): string
    requires base < |TierOrder|
  {
    TierOrder[base] + (if stars == 3 then " " + ThreeStars else if stars == 2 then " " + TwoStars else "")
  }

  /** `get_member_tier`: no tier at all without a base-tier role, whatever
      star roles the member has. */
  function MemberTier(roleIds: seq<nat>): (r: Option<string>)
    ensures r.None? <==> forall j :: 0 <= j < |TierOrder| ==> !Holds(roleIds, TierOrder[j])
    ensures r.Some? ==> r.value == TierString(BaseTier(roleIds).value, Stars(roleIds))
  {
    match BaseTier(roleIds)
    case None => None
    case Some(b) => Some(TierString(b, Stars(roleIds)))
  }

  /** The first tier held is the highest one held: every tier above it is
      missing and it is itself held. */
  lemma BaseTierMeaning(roleIds: seq<nat>, i: nat)
    requires i < |TierOrder|
    ensures BaseTier(roleIds) == Some(i)
        <==> Holds(roleIds, TierOrder[i]) && forall j :: 0 <= j < i ==> !Holds(roleIds, TierOrder[j])
  {
  }

  /** The Level-Tier field of `/showprofile`: its own copy of the walk over
      the base tiers, with the star text appended only when a base tier was
      found. */
  function ProfileBaseFrom(roleIds: seq<nat>, bases: seq<string>): Option<string>
  {
    if |bases| == 0 then None
    else if bases[0] in TierRoles && TierRoles[bases[0]] in roleIds then Some(bases[0])
    else ProfileBaseFrom(roleIds, bases[1..])
  }

  function ProfileLevelTier(roleIds: seq<nat>): Option<string>
  {
    match ProfileBaseFrom(roleIds, TierOrder)
    case None => None
    case Some(level) =>
      var stars := if Holds(roleIds, ThreeStars) then " " + ThreeStars
                   else if Holds(roleIds, TwoStars) then " " + TwoStars
                   else "";
      Some(level + stars)
  }

  lemma {:induction false} ProfileBaseFromAgrees(roleIds: seq<nat>, k: nat)
    requires k <= |TierOrder|
    ensures ProfileBaseFrom(roleIds, TierOrder[k..])
         == match BaseTierFrom(roleIds, k) case None => None case Some(b) => Some(TierOrder[b])
    decreases |TierOrder| - k
  {
    if k < |TierOrder| {
      assert TierOrder[k..][1..] == TierOrder[k + 1..];
      ProfileBaseFromAgrees(roleIds, k + 1);
    }
  }

  /** `/showprofile` and `/tierlist` resolve the same tier text. */
  lemma ProfileAgreesWithTierlist(roleIds: seq<nat>)
    ensures ProfileLevelTier(roleIds) == MemberTier(roleIds)
  {
    ProfileBaseFromAgrees(roleIds, 0);
    assert TierOrder[0..] == TierOrder;
  }

  /** `parse_tier_components`: the star count found in the text, and the
      position of the part before ` [` in `tier_order`, with the length of the
      order as the fallback. */
  function ParseTier(name: string): (int, int)
  {
    (BasePosition(name) as int, -(StarCount(name) as int))
  }

  /** The star count read from a tier text: ⁂ first, then ⁑. */
  function StarCount(name: string): nat
  {
    if Contains(name, ThreeStars) then 3 else if Contains(name, TwoStars) then 2 else 0
  }

  /** The position in the tier order of the stripped part before ` [`, with
      the length of the order as the fallback for an unknown name. */
  function BasePosition(name: string): nat
  {
    IndexOf(TierOrder, Strip(SplitHead(name, " [")))
  }

  /** The base-tier names are distinct, stripped, and free of `[` and of both star characters. */
  lemma TierNamesWellFormed()
    ensures Distinct(TierOrder)
    ensures forall i :: 0 <= i < |TierOrder| ==> '[' !in TierOrder[i] && IsStripped(TierOrder[i])
    ensures forall i :: 0 <= i < |TierOrder| ==> '\U{2042}' !in TierOrder[i] && '\U{2051}' !in TierOrder[i]
  {
  }

  lemma TierNameFacts(i: nat)
    requires i < |TierOrder|
    ensures '[' !in TierOrder[i] && IsStripped(TierOrder[i])
  {
    TierNamesWellFormed();
  }

  /** A name with no `[` is its own head when split at ` [`. */
  lemma SplitHeadWhole(s: string)
    requires '[' !in s
    ensures SplitHead(s, " [") == s
  {
    NotContainsMissingChar(s, " [", '[');
  }

  /** The star count `parse_tier_components` finds in a produced tier text. */
  lemma TierStringStars(base: nat, stars: nat)
    requires base < |TierOrder|
    requires stars == 0 || stars == 2 || stars == 3
    ensures Contains(TierString(base, stars), ThreeStars) <==> stars == 3
    ensures Contains(TierString(base, stars), TwoStars) <==> stars == 2
  {
    TierNamesWellFormed();
    var name := TierOrder[base];
    var t := TierString(base, stars);
    if stars == 3 {
      assert t == name + " " + ThreeStars;
      ContainsSuffix(name + " ", ThreeStars);
      assert '\U{2051}' !in t;
      NotContainsMissingChar(t, TwoStars, '\U{2051}');
    } else if stars == 2 {
      assert t == name + " " + TwoStars;
      ContainsSuffix(name + " ", TwoStars);
      assert '\U{2042}' !in t;
      NotContainsMissingChar(t, ThreeStars, '\U{2042}');
    } else {
      assert t == name;
      NotContainsMissingChar(t, ThreeStars, '\U{2042}');
      NotContainsMissingChar(t, TwoStars, '\U{2051}');
    }
  }

  /** The part of a produced tier text before ` [` is the base-tier name. */
  lemma TierStringHead(base: nat, stars: nat)
    requires base < |TierOrder|
    ensures SplitHead(TierString(base, stars), " [") == TierOrder[base]
  {
    TierNamesWellFormed();
    var name := TierOrder[base];
    if stars == 3 {
      SplitHeadBeforeBracket(name, " " + ThreeStars);
    } else if stars == 2 {
      SplitHeadBeforeBracket(name, " " + TwoStars);
    } else {
      assert TierString(base, stars) == name;
      SplitHeadWhole(name);
    }
  }

  /** The base position read back from a produced tier text. */
  lemma TierStringBase(base: nat, stars: nat)
    requires base < |TierOrder|
    ensures BasePosition(TierString(base, stars)) == base
  {
    TierStringHead(base, stars);
    TierNameFacts(base);
    StripStripped(TierOrder[base]);
    IndexOfTier(base);
  }

  /** Parsing a produced tier text gives back `(base position, -stars)`. */
  lemma ParseTierString(base: nat, stars: nat)
    requires base < |TierOrder|
    requires stars == 0 || stars == 2 || stars == 3
    ensures ParseTier(TierString(base, stars)) == (base as int, -(stars as int))
  {
    TierStringBase(base, stars);
    TierStringStars(base, stars);
  }

  lemma IndexOfTier(i: nat)
    requires i < |TierOrder|
    ensures IndexOf(TierOrder, TierOrder[i]) == i
  {
    TierNamesWellFormed();
    IndexOfDistinct(TierOrder, i);
  }

  /** The round trip the leaderboard relies on: the key parsed from a
      member's tier text is its base-tier position and its negated star count,
      so the fallback position is never used. */
  lemma ParseMemberTier(roleIds: seq<nat>)
    requires MemberTier(roleIds).Some?
    ensures ParseTier(MemberTier(roleIds).value) == (BaseTier(roleIds).value as int, -(Stars(roleIds) as int))
    ensures ParseTier(MemberTier(roleIds).value).0 < |TierOrder|
  {
    var b := BaseTier(roleIds).value;
    var n := Stars(roleIds);
    assert MemberTier(roleIds).value == TierString(b, n);
    ParseTierString(b, n);
  }
}
