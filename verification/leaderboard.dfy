/** `/tierlist`: the members with a Level-Tier, each with a group rank
    (defaulting to "Initiate"), sorted stably by (base-tier position, negated
    star count, rank position), the invoker's 1-based position, and pages of
    15 rows. */
module Leaderboard {
  import opened Base
  import opened Tiers
  import opened Ranks
  import opened Sorting
  import opened View

  /** What the leaderboard reads of a guild member: the id and the ids and
      names of the member's roles. */
  datatype Member = Member(id: nat, roleIds: seq<nat>, roleNames: seq<string>)

  /** One `(member, tier, rank)` tuple of `members_with_tier`. */
  datatype Entry = Entry(member: Member, tier: string, rank: string)

  const DefaultRank: string := "Initiate"

  /** The tuple of a member with a tier: `get_member_rank(member) or "Initiate"`. */
  function RowOf(m: Member): Option<Entry>
  {
    match MemberTier(m.roleIds)
    case None => None
    case Some(t) =>
      var rank := match MemberRank(m.roleNames) case None => DefaultRank case Some(r) => r;
      Some(Entry(m, t, rank))
  }

  /** `members_with_tier`, in guild order. */
  function Entries(members: seq<Member>): seq<Entry>
  {
    Collect(RowOf, members)
  }

  /** Rows keep guild order: the rows of an earlier run of members come,
      in full, before the rows of a later run. */
  lemma EntriesInGuildOrder(a: seq<Member>, b: seq<Member>)
    ensures Entries(a + b) == Entries(a) + Entries(b)
  {
    CollectAppend(RowOf, a, b);
  }

  /** The leaderboard holds exactly the members that have a tier, each with
      their own tier text and rank. */
  lemma {:induction false} EntriesExactly(members: seq<Member>)
    ensures forall e :: e in Entries(members) ==> e.member in members && RowOf(e.member) == Some(e)
    ensures forall m :: m in members && MemberTier(m.roleIds).Some? ==> RowOf(m).Some? && RowOf(m).value in Entries(members)
    ensures |Entries(members)| == 0 <==> forall m :: m in members ==> MemberTier(m.roleIds).None?
  {
    if |members| > 0 {
      var n := |members| - 1;
      EntriesExactly(members[..n]);
      assert forall m :: m in members <==> m in members[..n] || m == members[n];
    }
  }

  /** `rank_index`: the position in `group_ranks_order`, with its length as fallback. */
  function RankIndex(rank: string): nat
  {
    IndexOf(GroupRanksOrder, rank)
  }

  /** The sort key `(parse_tier_components(tier), rank_index(rank))`, flattened. */
  function KeyOf(e: Entry): SortKey
  {
    var p := ParseTier(e.tier);
    SortKey(p.0, p.1, RankIndex(e.rank))
  }

  /** The key of a member's row is built from a listed tier and a listed
      rank, so neither fallback position of the key functions is used. */
  lemma RowKeyInRange(m: Member)
    requires RowOf(m).Some?
    ensures KeyOf(RowOf(m).value).base < |TierOrder|
    ensures KeyOf(RowOf(m).value).rank < |GroupRanksOrder|
    ensures KeyOf(RowOf(m).value).negStars in {0, -2, -3}
  {
    ParseMemberTier(m.roleIds);
    var e := RowOf(m).value;
    assert e.tier == MemberTier(m.roleIds).value;
    assert e.rank == DefaultRank || e.rank in GroupRanksOrder;
    assert DefaultRank == GroupRanksOrder[13];
  }

  lemma KeysUseNoFallback(members: seq<Member>)
    ensures forall e :: e in Entries(members) ==>
              KeyOf(e).base < |TierOrder| && KeyOf(e).rank < |GroupRanksOrder|
  {
    EntriesExactly(members);
    forall e | e in Entries(members)
      ensures KeyOf(e).base < |TierOrder| && KeyOf(e).rank < |GroupRanksOrder|
    {
      RowKeyInRange(e.member);
    }
  }

  /** The key of every row, computed once as `sort(key=...)` does. */
  function Keys(es: seq<Entry>): (ks: seq<SortKey>)
    ensures |ks| == |es|
    ensures forall i :: 0 <= i < |es| ==> ks[i] == KeyOf(es[i])
  {
    if |es| == 0 then [] else [KeyOf(es[0])] + Keys(es[1..])
  }

  /** `members_with_tier.sort(key=...)`. */
  function SortRows(es: seq<Entry>): seq<Entry>
  {
    Items(Sort(Zip(Keys(es), es)))
  }

  /** The sorted rows are a permutation of the rows, in key order, and for
      every key they hold the rows of that key in their original order. */
  lemma SortRowsMeaning(es: seq<Entry>)
    ensures multiset(SortRows(es)) == multiset(es)
    ensures forall i, j :: 0 <= i < j < |SortRows(es)| ==> KeyLe(KeyOf(SortRows(es)[i]), KeyOf(SortRows(es)[j]))
    ensures forall k :: WithKey(Sort(Zip(Keys(es), es)), k) == WithKey(Zip(Keys(es), es), k)
  {
    var ks := Keys(es);
    var d := Zip(ks, es);
    var t := Sort(d);
    SortPermutesItems(ks, es);
    SortSorted(d);
    forall k
      ensures WithKey(t, k) == WithKey(d, k)
    {
      SortStable(d, k);
    }
    forall i | 0 <= i < |t|
      ensures t[i].key == KeyOf(t[i].item)
    {
      SortKeepsPairs(ks, es, i);
    }
  }

  /** The loop over `enumerate(members_with_tier, start=1)` from index `k` on. */
  function PositionFrom(s: seq<Entry>, id: nat, k: nat): (r: Option<nat>)
    requires k <= |s|
    ensures r.Some? ==> k < r.value <= |s| && s[r.value - 1].member.id == id
    ensures r.Some? ==> forall j :: k <= j < r.value - 1 ==> s[j].member.id != id
    ensures r.None? <==> forall j :: k <= j < |s| ==> s[j].member.id != id
    decreases |s| - k
  {
    if k == |s| then None
    else if s[k].member.id == id then Some(k + 1)
    else PositionFrom(s, id, k + 1)
  }

  /** `invoker_pos`: the 1-based position of the invoker's first row, if any. */
  function InvokerPos(s: seq<Entry>, id: nat): Option<nat>
  {
    PositionFrom(s, id, 0)
  }

  lemma InvokerPosMeaning(s: seq<Entry>, id: nat, p: nat)
    ensures InvokerPos(s, id) == Some(p)
        <==> 1 <= p <= |s| && s[p - 1].member.id == id && forall j :: 0 <= j < p - 1 ==> s[j].member.id != id
    ensures InvokerPos(s, id).None? <==> forall j :: 0 <= j < |s| ==> s[j].member.id != id
  {
    if 1 <= p <= |s| && s[p - 1].member.id == id && forall j :: 0 <= j < p - 1 ==> s[j].member.id != id {
      var r := InvokerPos(s, id);
      assert r.Some?;
      assert !(r.value < p) && !(p < r.value);
    }
  }

  const PerPage: nat := 15

  /** The rows cut into consecutive pages of 15, the last page holding the rest. */
  function Pages<T>(s: seq<T>): (pages: seq<seq<T>>)
    ensures |pages| == (|s| + PerPage - 1) / PerPage
    ensures forall p :: 0 <= p < |pages| ==> pages[p] == s[PerPage * p .. Min(PerPage * p + PerPage, |s|)]
    decreases |s|
  {
    if |s| == 0 then []
    else if |s| <= PerPage then [s]
    else
      var rest := Pages(s[PerPage..]);
      assert forall p :: 1 <= p <= |rest| ==>
        s[PerPage..][PerPage * (p - 1) .. Min(PerPage * (p - 1) + PerPage, |s| - PerPage)]
        == s[PerPage * p .. Min(PerPage * p + PerPage, |s|)];
      [s[..PerPage]] + rest
  }

  function Flatten<T>(pages: seq<seq<T>>): seq<T>
  {
    if |pages| == 0 then [] else pages[0] + Flatten(pages[1..])
  }

  /** The pages put back together are the whole list. */
  lemma {:induction false} PagesFlatten<T>(s: seq<T>)
    ensures Flatten(Pages(s)) == s
    decreases |s|
  {
    if |s| > PerPage {
      PagesFlatten(s[PerPage..]);
      assert Pages(s)[1..] == Pages(s[PerPage..]);
      assert s == s[..PerPage] + s[PerPage..];
    } else if |s| > 0 {
      assert Pages(s)[1..] == [];
    }
  }

  /** Every page but the last holds exactly 15 rows, the last one between 1
      and 15, and row `i` is row `i % 15` of page `i / 15`. */
  lemma PagesShape<T>(s: seq<T>)
    ensures forall p :: 0 <= p < |Pages(s)| - 1 ==> |Pages(s)[p]| == PerPage
    ensures |Pages(s)| > 0 ==> 0 < |Pages(s)[|Pages(s)| - 1]| <= PerPage
    ensures |s| > 0 <==> |Pages(s)| > 0
    ensures forall i :: 0 <= i < |s| ==> i / PerPage < |Pages(s)| && i % PerPage < |Pages(s)[i / PerPage]|
  {
  }

  lemma PagesLocate<T>(s: seq<T>, i: nat)
    requires i < |s|
    ensures i / PerPage < |Pages(s)| && i % PerPage < |Pages(s)[i / PerPage]|
    ensures Pages(s)[i / PerPage][i % PerPage] == s[i]
  {
    PagesShape(s);
  }

  /** What `/tierlist` ends with: the "No members with Tier roles found."
      reply, or the pages and the invoker's position handed to the view. */
  datatype Tierlist = NoTierMembers | Board(pages: seq<seq<Entry>>, invokerPos: Option<nat>)

  function TierlistOf(members: seq<Member>, invoker: nat): Tierlist
  {
    var es := Entries(members);
    if |es| == 0 then NoTierMembers
    else
      var sorted := SortRows(es);
      Board(Pages(sorted), InvokerPos(sorted, invoker))
  }

  /** The board exists exactly when some member has a tier. */
  lemma TierlistExists(members: seq<Member>, invoker: nat)
    ensures TierlistOf(members, invoker).NoTierMembers?
        <==> forall m :: m in members ==> MemberTier(m.roleIds).None?
  {
    EntriesExactly(members);
  }

  /** The board's pages, read in order, are the sorted rows, and there is at
      least one page. */
  lemma TierlistPages(members: seq<Member>, invoker: nat)
    requires TierlistOf(members, invoker).Board?
    ensures Flatten(TierlistOf(members, invoker).pages) == SortRows(Entries(members))
    ensures |TierlistOf(members, invoker).pages| >= 1
  {
    var sorted := SortRows(Entries(members));
    assert TierlistOf(members, invoker).pages == Pages(sorted);
    PagesFlatten(sorted);
    PagesShape(sorted);
  }

  /** The footer position names the invoker's first row of the sorted board,
      and is absent exactly when the invoker has no row. */
  lemma TierlistPosition(members: seq<Member>, invoker: nat)
    requires TierlistOf(members, invoker).Board?
    ensures var b := TierlistOf(members, invoker);
            var rows := SortRows(Entries(members));
            (b.invokerPos.Some? ==> 1 <= b.invokerPos.value <= |rows| && rows[b.invokerPos.value - 1].member.id == invoker)
            && (b.invokerPos.None? <==> forall i :: 0 <= i < |rows| ==> rows[i].member.id != invoker)
  {
  }

  /** The view built from a board starts valid on page 0, and its footer
      shows the invoker's position exactly when the invoker has a row. */
  lemma BoardViewStarts(members: seq<Member>, invoker: nat)
    requires TierlistOf(members, invoker).Board?
    ensures var b := TierlistOf(members, invoker);
            var v := SendInitial(New(b.pages, b.invokerPos));
            Valid(v) && v.current == 0 && CurrentPage(v) == b.pages[0]
            && FooterPosition(v) == b.invokerPos
  {
    TierlistPages(members, invoker);
    TierlistPosition(members, invoker);
  }
}
