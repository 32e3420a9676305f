/** The user-mention scanner `MENTION_RE.findall(text)` for the pattern
    `<@!?(\d+)>`, and the `int(uid)` conversion the commands apply to each
    captured id. */
module Mentions {
  import opened Base

  predicate IsDigit(c: char)
  {
    '0' <= c <= '9'
  }

  predicate AllDigits(s: string)
  {
    forall i :: 0 <= i < |s| ==> IsDigit(s[i])
  }

  /** Length of the (greedy) run of digits at the start of `s`. */
  function DigitRun(s: string): (n: nat)
    ensures n <= |s|
    ensures forall i :: 0 <= i < n ==> IsDigit(s[i])
    ensures n < |s| ==> !IsDigit(s[n])
  {
    if |s| > 0 && IsDigit(s[0]) then 1 + DigitRun(s[1..]) else 0
  }

  /** The digit run in front of a non-digit stops exactly at that non-digit. */
  lemma {:induction false} DigitRunOf(d: string, t: string)
    requires AllDigits(d)
    requires |t| > 0 && !IsDigit(t[0])
    ensures DigitRun(d + t) == |d|
    decreases |d|
  {
    if |d| == 0 {
      assert d + t == t;
    } else {
      assert (d + t)[1..] == d[1..] + t;
      DigitRunOf(d[1..], t);
    }
  }

  /** One match of the pattern: the captured digits and the number of
      characters the match consumed. */
  datatype Match = Match(id: string, len: nat)

  /** The pattern `<@!?(\d+)>` tried at the first character of `s`. The
      optional `!` cannot be a digit, so backtracking over `!?` never finds a
      second way to match. */
  function MatchAt(s: string): (m: Option<Match>)
    ensures m.Some? ==> 0 < m.value.len <= |s|
    ensures m.Some? ==> |m.value.id| > 0 && AllDigits(m.value.id)
  {
    if |s| < 2 || s[0] != '<' || s[1] != '@' then None
    else
      var start := if |s| > 2 && s[2] == '!' then 3 else 2;
      var n := DigitRun(s[start..]);
      if n > 0 && start + n < |s| && s[start + n] == '>'
      then Some(Match(s[start..start + n], start + n + 1))
      else None
  }

  /** `findall`: scan left to right; after a match resume behind it,
      otherwise move on by one character. */
  function FindMentions(s: string): (ids: seq<string>)
    ensures forall k :: 0 <= k < |ids| ==> |ids[k]| > 0 && AllDigits(ids[k])
    decreases |s|
  {
    if |s| == 0 then []
    else match MatchAt(s)
      case Some(m) => [m.id] + FindMentions(s[m.len..])
      case None => FindMentions(s[1..])
  }

  /** The two mention forms Discord produces for a user id. */
  function Mention(d: string): string
  {
    "<@" + d + ">"
  }

  function NickMention(d: string): string
  {
    "<@!" + d + ">"
  }

  /** A leading `<@digits>` is found and the scan resumes right after it. */
  lemma FindMentionFirst(d: string, rest: string)
    requires |d| > 0 && AllDigits(d)
    ensures FindMentions(Mention(d) + rest) == [d] + FindMentions(rest)
  {
    var s := Mention(d) + rest;
    assert s[2] == d[0];
    assert s[2..] == d + (">" + rest);
    DigitRunOf(d, ">" + rest);
    assert s[2..2 + |d|] == d;
    assert s[|d| + 3..] == rest;
  }

  /** A leading `<@!digits>` is found as well, with the same capture. */
  lemma FindNickMentionFirst(d: string, rest: string)
    requires |d| > 0 && AllDigits(d)
    ensures FindMentions(NickMention(d) + rest) == [d] + FindMentions(rest)
  {
    var s := NickMention(d) + rest;
    assert s[3..] == d + (">" + rest);
    DigitRunOf(d, ">" + rest);
    assert s[3..3 + |d|] == d;
    assert s[|d| + 4..] == rest;
  }

  /** Text that does not start with `<` contributes nothing at its first character. */
  lemma FindMentionsSkip(c: char, rest: string)
    requires c != '<'
    ensures FindMentions([c] + rest) == FindMentions(rest)
  {
    assert ([c] + rest)[1..] == rest;
  }

  /** Mentions written one after another, separated by blanks. */
  function Render(ds: seq<string>): string
  {
    if |ds| == 0 then "" else Mention(ds[0]) + " " + Render(ds[1..])
  }

  /** Scanning a rendered mention list gives the ids back, in order and with
      repetitions. */
  lemma {:induction false} FindMentionsRender(ds: seq<string>)
    requires forall k :: 0 <= k < |ds| ==> |ds[k]| > 0 && AllDigits(ds[k])
    ensures FindMentions(Render(ds)) == ds
    decreases |ds|
  {
    if |ds| > 0 {
      var tail := " " + Render(ds[1..]);
      assert Render(ds) == Mention(ds[0]) + tail;
      FindMentionFirst(ds[0], tail);
      FindMentionsSkip(' ', Render(ds[1..]));
      FindMentionsRender(ds[1..]);
    }
  }

  function DigitValue(c: char): nat
    requires IsDigit(c)
  {
    c as int - '0' as int
  }

  function DigitChar(n: nat): (c: char)
    requires n < 10
    ensures IsDigit(c) && DigitValue(c) == n
  {
    ('0' as int + n) as char
  }

  /** Python's `int(uid)` on a string of decimal digits. */
  function ParseNat(d: string): nat
    requires AllDigits(d)
  {
    if |d| == 0 then 0 else ParseNat(d[..|d| - 1]) * 10 + DigitValue(d[|d| - 1])
  }

  /** The decimal spelling of a user id. */
  function NatToString(n: nat): (d: string)
    ensures |d| > 0 && AllDigits(d)
  {
    if n < 10 then [DigitChar(n)] else NatToString(n / 10) + [DigitChar(n % 10)]
  }

  /** Reading back a spelled-out id gives the id. */
  lemma {:induction false} ParseNatToString(n: nat)
    ensures ParseNat(NatToString(n)) == n
  {
    if n >= 10 {
      var d := NatToString(n);
      assert d[..|d| - 1] == NatToString(n / 10);
      ParseNatToString(n / 10);
    }
  }

  /** `int(uid)` for every id the scanner found. */
  function ParseAll(ds: seq<string>): (ids: seq<nat>)
    requires forall k :: 0 <= k < |ds| ==> AllDigits(ds[k])
    ensures |ids| == |ds|
    ensures forall k :: 0 <= k < |ds| ==> ids[k] == ParseNat(ds[k])
  {
    if |ds| == 0 then [] else [ParseNat(ds[0])] + ParseAll(ds[1..])
  }

  /** Every mention captured in `text`, in order, converted to an integer id. */
  function MentionIds(text: string): seq<nat>
  {
    ParseAll(FindMentions(text))
  }

  function Spell(ids: seq<nat>): (ds: seq<string>)
    ensures |ds| == |ids|
    ensures forall k :: 0 <= k < |ids| ==> ds[k] == NatToString(ids[k])
  {
    if |ids| == 0 then [] else [NatToString(ids[0])] + Spell(ids[1..])
  }

  /** Mentioning a list of users and scanning the text yields those users. */
  lemma MentionIdsRoundTrip(ids: seq<nat>)
    ensures MentionIds(Render(Spell(ids))) == ids
  {
    var ds := Spell(ids);
    FindMentionsRender(ds);
    forall k | 0 <= k < |ids|
      ensures ParseNat(ds[k]) == ids[k]
    {
      ParseNatToString(ids[k]);
    }
  }
}
