/** Group ranks from a member's role names: `get_highest_rank` (the held rank
    with the largest position in `rank_list`), `get_member_rank` (the first
    held rank of the reversed order), the "emoji | name" display and its
    reading back in `/showprofile`, and the next-rank notice. */
module Ranks {
  import opened Base
  import opened Text
  import opened Tiers

  /** `rank_list`, lowest rank first. */
  const RankList: seq<string> := [
    "Initiate", "Acolyte", "Disciple", "Seeker", "Knight", "Gray Knight",
    "Silver Knight", "Master - On trial", "Grandmaster", "Master of Balance",
    "Gray Lord", "Ashen Lord", "Gray Emperor", "Elder Gray Emperor"
  ]

  /** `group_ranks_order`, highest rank first. */
  const GroupRanksOrder: seq<string> := [
    "Elder Gray Emperor", "Gray Emperor", "Ashen Lord", "Gray Lord",
    "Master of Balance", "Grandmaster", "Master - On trial", "Silver Knight",
    "Gray Knight", "Knight", "Seeker", "Disciple", "Acolyte", "Initiate"
  ]

  /** `rank_emojis`. */
  const RankEmojis: map<string, string> := map[
    "Initiate" := "<:Initate:1384843420316729435>",
    "Acolyte" := "<:Acolyte:1384849435225358407>",
    "Disciple" := "<:Disciple:1384843393234108426>",
    "Seeker" := "<:Seeker:1384843362942844988>",
    "Knight" := "<:Knight:1384844814104789032>",
    "Gray Knight" := "<:GrayKnight:1384844842361815111>",
    "Silver Knight" := "<:SilverKnight:1384874305363513425>",
    "Master - On trial" := "<:trial_master:1390000479970263100>",
    "Grandmaster" := "<:grm:1384494486222147654>",
    "Master of Balance" := "<:Mbalance:1384835972813820057>",
    "Gray Lord" := "<:GrayLord:1395372415856410686>",
    "Ashen Lord" := "<:AshenLord:1395372378728431626>",
    "Gray Emperor" := "<:Silver:1384690687189975090>",
    "Elder Gray Emperor" := "<:gold:1384690646803284038>"
  ]

  const NoRank: string := "No Rank"

  /** The rank names are distinct, stripped, and free of `|`. */
  lemma RankNamesWellFormed()
    ensures |RankList| == 14 && Distinct(RankList)
    ensures forall i :: 0 <= i < |RankList| ==> '|' !in RankList[i] && IsStripped(RankList[i])
  {
  }

  /** `group_ranks_order` is `rank_list` read backwards. */
  lemma GroupOrderIsReverse()
    ensures |GroupRanksOrder| == |RankList|
    ensures forall i :: 0 <= i < |RankList| ==> GroupRanksOrder[i] == RankList[|RankList| - 1 - i]
  {
  }

  function RankPosition(r: string): nat
  {
    IndexOf(RankList, r)
  }

  lemma RankPositionOf(i: nat)
    requires i < |RankList|
    ensures RankPosition(RankList[i]) == i
  {
    RankNamesWellFormed();
    IndexOfDistinct(RankList, i);
  }

  /** The entries of `order` that the member holds, in the order of `order`. */
  function Found(order: seq<string>, names: seq<string>): (r: seq<string>)
    ensures forall x :: x in r <==> x in order && x in names
  {
    if |order| == 0 then []
    else (if order[0] in names then [order[0]] else []) + Found(order[1..], names)
  }

  /** Python's `max` keyed by position in `order`: scanning left to right, a
      later element replaces the current one only when its position is strictly larger. */
  function MaxByPosition(order: seq<string>, found: seq<string>): (m: string)
    requires |found| > 0
    ensures m in found
    ensures forall x :: x in found ==> IndexOf(order, x) <= IndexOf(order, m)
  {
    if |found| == 1 then found[0]
    else
      var n := |found| - 1;
      var m := MaxByPosition(order, found[..n]);
      assert forall x :: x in found ==> x in found[..n] || x == found[n];
      if IndexOf(order, found[n]) > IndexOf(order, m) then found[n] else m
  }

  /** The held element of `order` with the largest position, if any. */
  function HighestIn(order: seq<string>, names: seq<string>): Option<string>
  {
    var found := Found(order, names);
    if |found| == 0 then None else Some(MaxByPosition(order, found))
  }

  lemma HighestInMeaning(order: seq<string>, names: seq<string>, i: nat)
    requires Distinct(order)
    requires i < |order|
    ensures HighestIn(order, names) == Some(order[i])
        <==> order[i] in names && forall j :: i < j < |order| ==> order[j] !in names
    ensures HighestIn(order, names).None? <==> forall j :: 0 <= j < |order| ==> order[j] !in names
  {
    var found := Found(order, names);
    forall j | 0 <= j < |order|
      ensures IndexOf(order, order[j]) == j
    {
      IndexOfDistinct(order, j);
    }
    if |found| > 0 {
      var m := MaxByPosition(order, found);
      var k := IndexOf(order, m);
      assert order[k] == m;
      assert forall j :: k < j < |order| ==> order[j] !in names;
    }
  }

  /** The rank `get_highest_rank` picks, before it is decorated; `None` is
      the "No Rank" case. */
  function HighestRank(names: seq<string>): Option<string>
  {
    HighestIn(RankList, names)
  }

  /** A rank is the highest one exactly when the member holds it and holds no
      rank after it in `rank_list`; there is none exactly when no rank is held. */
  lemma HighestRankMeaning(names: seq<string>, i: nat)
    requires i < |RankList|
    ensures HighestRank(names) == Some(RankList[i])
        <==> RankList[i] in names && forall j :: i < j < |RankList| ==> RankList[j] !in names
    ensures HighestRank(names).None? <==> forall j :: 0 <= j < |RankList| ==> RankList[j] !in names
  {
    RankNamesWellFormed();
    HighestInMeaning(RankList, names, i);
  }

  /** The first entry of `order` at or after position `k` that the member holds. */
  function FirstHeldFrom(order: seq<string>, names: seq<string>, k: nat): (r: Option<nat>)
    requires k <= |order|
    ensures r.Some? ==> k <= r.value < |order| && order[r.value] in names
    ensures r.Some? ==> forall j :: k <= j < r.value ==> order[j] !in names
    ensures r.None? <==> forall j :: k <= j < |order| ==> order[j] !in names
    decreases |order| - k
  {
    if k == |order| then None
    else if order[k] in names then Some(k)
    else FirstHeldFrom(order, names, k + 1)
  }

  /** The first held element of a list is the held element with the largest
      position in the reversed list. */
  lemma FirstHeldIsHighestOfReverse(order: seq<string>, rev: seq<string>, names: seq<string>)
    requires Distinct(order)
    requires |rev| == |order|
    requires forall i :: 0 <= i < |order| ==> rev[i] == order[|order| - 1 - i]
    ensures (match FirstHeldFrom(rev, names, 0) case None => None case Some(k) => Some(rev[k]))
         == HighestIn(order, names)
  {
    var n := |order|;
    match FirstHeldFrom(rev, names, 0)
    case None =>
      if n > 0 {
        assert forall j :: 0 <= j < n ==> order[j] == rev[n - 1 - j];
        HighestInMeaning(order, names, 0);
      } else {
        assert Found(order, names) == [];
      }
    case Some(k) =>
      var i := n - 1 - k;
      assert forall j :: i < j < n ==> order[j] == rev[n - 1 - j];
      HighestInMeaning(order, names, i);
  }

  /** `get_member_rank`: the first rank of `group_ranks_order` the member holds. */
  function MemberRank(names: seq<string>): Option<string>
  {
    match FirstHeldFrom(GroupRanksOrder, names, 0)
    case None => None
    case Some(k) => Some(GroupRanksOrder[k])
  }

  /** The leaderboard's first match over the reversed order and the
      profile's maximum over `rank_list` name the same rank. */
  lemma MemberRankIsHighest(names: seq<string>)
    ensures MemberRank(names) == HighestRank(names)
  {
    RankNamesWellFormed();
    GroupOrderIsReverse();
    FirstHeldIsHighestOfReverse(RankList, GroupRanksOrder, names);
  }

  /** `f"{emoji} | {rank}" if emoji else rank`. */
  function Display(emoji: string, rank: string): string
  {
    if |emoji| > 0 then emoji + " | " + rank else rank
  }

  /** The emoji shown before a rank, or nothing for a rank without one. */
  function EmojiOf(rank: string): string
  {
    if rank in RankEmojis then RankEmojis[rank] else ""
  }

  /** `get_highest_rank`: the decorated rank text, or "No Rank". */
  function GetHighestRank(names: seq<string>): string
  {
    match HighestRank(names)
    case None => NoRank
    case Some(r) => Display(EmojiOf(r), r)
  }

  /** The rank-name recovery: the text after the last `|`, stripped, when there is
      a `|`; the text unchanged otherwise. */
  function RecoverRankName(raw: string): string
  {
    if '|' in raw then Strip(LastSegment(raw, '|')) else raw
  }

  /** Reading a displayed rank back gives the rank, whatever the emoji is,
      provided the rank name itself has no `|` and no surrounding blanks. */
  lemma RecoverDisplay(emoji: string, rank: string)
    requires '|' !in rank && IsStripped(rank)
    ensures RecoverRankName(Display(emoji, rank)) == rank
  {
    if |emoji| > 0 {
      var raw := Display(emoji, rank);
      assert raw == (emoji + " ") + ['|'] + (" " + rank);
      assert '|' in raw by { assert raw[|emoji| + 1] == '|'; }
      assert '|' !in " " + rank;
      LastSegmentAfter(emoji + " ", '|', " " + rank);
      StripLeadingBlank(rank);
    }
  }

  /** `current_rank` in `/showprofile`: the highest rank's plain name, or
      "No Rank". */
  function CurrentRank(names: seq<string>): string
  {
    RecoverRankName(GetHighestRank(names))
  }

  lemma CurrentRankIsHighest(names: seq<string>)
    ensures CurrentRank(names) == match HighestRank(names) case None => NoRank case Some(r) => r
    ensures CurrentRank(names) == NoRank || CurrentRank(names) in RankList
  {
    match HighestRank(names)
    case None =>
      assert '|' !in NoRank;
    case Some(r) =>
      RankNamesWellFormed();
      var k :| 0 <= k < |RankList| && RankList[k] == r;
      RecoverDisplay(EmojiOf(r), r);
  }

  /** `rank_requirements`: training points, mission points (absent reads as
      0) and, for some ranks, a Level-Tier. */
  datatype Req = Req(tp: nat, mp: nat, tier: Option<string>)

  const RankRequirements: map<string, Req> := map[
    "Acolyte" := Req(1, 0, None),
    "Disciple" := Req(5, 3, Some("Low-Tier")),
    "Seeker" := Req(12, 5, Some("Low-Tier")),
    "Knight" := Req(18, 9, Some("Middle-Tier")),
    "Gray Knight" := Req(24, 12, Some("Middle-Tier [ \U{2051} ]")),
    "Silver Knight" := Req(30, 18, Some("Middle-Tier [ \U{2042} ]"))
  ]

  /** The requirements rise with the rank: each rank listed asks for more
      training and more mission points than the one below it. */
  lemma RequirementsRise(i: nat, j: nat)
    requires 1 <= i < j <= 6
    ensures RankList[i] in RankRequirements && RankList[j] in RankRequirements
    ensures RankRequirements[RankList[i]].tp < RankRequirements[RankList[j]].tp
    ensures RankRequirements[RankList[i]].mp < RankRequirements[RankList[j]].mp
  {
  }

  /** Every Level-Tier requirement is a tier text `get_member_tier` produces. */
  lemma RequiredTiersAreTierTexts(r: string)
    requires r in RankRequirements && RankRequirements[r].tier.Some?
    ensures exists base: nat, stars: nat :: base < |TierOrder| && (stars == 0 || stars == 2 || stars == 3)
              && RankRequirements[r].tier.value == TierString(base, stars)
  {
    var t := RankRequirements[r].tier.value;
    if t == "Low-Tier" {
      assert t == TierString(6, 0);
    } else if t == "Middle-Tier" {
      assert t == TierString(5, 0);
    } else if t == "Middle-Tier [ \U{2051} ]" {
      assert t == TierString(5, 2);
    } else {
      assert t == TierString(5, 3);
    }
  }

  /** `rank_list[current_index + 1]` when the current rank is listed and not last. */
  function NextRank(current: string): Option<string>
  {
    if current in RankList && RankPosition(current) + 1 < |RankList|
    then Some(RankList[RankPosition(current) + 1])
    else None
  }

  /** The closing notice of `/showprofile`. */
  datatype Notice =
    | Founder
    | Owner
    | Remembered
    | Council
    | HrNextRank(next: string)
    | HrDecides
    | Requirements(next: string, req: Req)
    | NoNotice

  function NextRankNotice(current: string, retired: bool): Notice
  {
    if current == "Elder Gray Emperor" then Founder
    else if current == "Gray Emperor" then Owner
    else if retired then Remembered
    else
      var next := NextRank(current);
      if current == "Gray Lord" || current == "Ashen Lord" then Council
      else if current == "Silver Knight" then (if next.Some? then HrNextRank(next.value) else NoNotice)
      else if current in ["Master - On trial", "Grandmaster", "Master of Balance"] then HrDecides
      else if next.Some? && next.value in RankRequirements then Requirements(next.value, RankRequirements[next.value])
      else NoNotice
  }

  /** The notice a member at position `i` of `rank_list` is meant to see. */
  function ExpectedNotice(i: nat, retired: bool): Notice
    requires i < |RankList|
  {
    if i == 13 then Founder
    else if i == 12 then Owner
    else if retired then Remembered
    else if i >= 10 then Council
    else if i >= 7 then HrDecides
    else if i == 6 then HrNextRank(RankList[7])
    else Requirements(RankList[i + 1], RankRequirements[RankList[i + 1]])
  }

  /** Every listed rank gets the notice its position calls for: the two
      emperors their titles even when retired, the council and the masters
      no requirements, Silver Knight the HR notice naming the next rank, and
      every lower rank the requirements of the rank right above it. */
  lemma NoticeByPosition(i: nat, retired: bool)
    requires i < |RankList|
    ensures NextRankNotice(RankList[i], retired) == ExpectedNotice(i, retired)
  {
    var r := RankList[i];
    RankFacts(i);
    if i < 12 && !retired {
      RankPositionOf(i);
      assert NextRank(r) == Some(RankList[i + 1]);
      if i < 6 {
        RankFacts(i + 1);
        var next := RankList[i + 1];
        assert next in RankRequirements;
        assert NextRankNotice(r, retired) == Requirements(next, RankRequirements[next]);
      }
    }
  }

  /** Which of the names the notice tests each position of `rank_list` carries. */
  lemma RankFacts(i: nat)
    requires i < |RankList|
    ensures RankList[i] == "Elder Gray Emperor" <==> i == 13
    ensures RankList[i] == "Gray Emperor" <==> i == 12
    ensures (RankList[i] == "Gray Lord" || RankList[i] == "Ashen Lord") <==> 10 <= i <= 11
    ensures RankList[i] == "Silver Knight" <==> i == 6
    ensures RankList[i] in ["Master - On trial", "Grandmaster", "Master of Balance"] <==> 7 <= i <= 9
    ensures RankList[i] in RankRequirements <==> 1 <= i <= 6
  {
    if i == 0 {
      assert RankList[i] == RankList[0];
    } else if i == 1 {
      assert RankList[i] == RankList[1];
    } else if i == 2 {
      assert RankList[i] == RankList[2];
    } else if i == 3 {
      assert RankList[i] == RankList[3];
    } else if i == 4 {
      assert RankList[i] == RankList[4];
    } else if i == 5 {
      assert RankList[i] == RankList[5];
    } else if i == 6 {
      assert RankList[i] == RankList[6];
    } else if i == 7 {
      assert RankList[i] == RankList[7];
    } else if i == 8 {
      assert RankList[i] == RankList[8];
    } else if i == 9 {
      assert RankList[i] == RankList[9];
    } else if i == 10 {
      assert RankList[i] == RankList[10];
    } else if i == 11 {
      assert RankList[i] == RankList[11];
    } else if i == 12 {
      assert RankList[i] == RankList[12];
    } else if i == 13 {
      assert RankList[i] == RankList[13];
    }
  }

  /** A member with no rank sees no requirements, only the retired notice if retired. */
  lemma NoticeWithoutRank(retired: bool)
    ensures NextRankNotice(NoRank, retired) == if retired then Remembered else NoNotice
  {
    assert NoRank !in RankList;
  }
}
