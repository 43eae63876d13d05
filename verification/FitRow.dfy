/** Fitting a row of labels, and a host banner, into the width there is:
    `fit_row` and `fit_banner` of crates/multitop/src/layout.rs. */
module FitRow {

  // ------------------------------------------------------------------ rows

  /** The indices still kept once these have been given up. */
  ghost predicate Keeps(kept: seq<bool>, given: seq<nat>) {
    forall i :: 0 <= i < |kept| ==> (kept[i] <==> i !in given)
  }

  function Count(kept: seq<bool>): nat {
    if kept == [] then 0 else Count(kept[..|kept| - 1]) + if kept[|kept| - 1] then 1 else 0
  }

  function Text(widths: seq<nat>, kept: seq<bool>): nat
    requires |kept| == |widths|
  {
    if kept == [] then 0
    else Text(widths[..|kept| - 1], kept[..|kept| - 1]) + if kept[|kept| - 1] then widths[|kept| - 1] else 0
  }

  /** The width of the kept chunks with a separator between each two. */
  function Used(widths: seq<nat>, sep: nat, kept: seq<bool>): nat
    requires |kept| == |widths|
  {
    Text(widths, kept) + sep * (if Count(kept) == 0 then 0 else Count(kept) - 1)
  }

  /** The kept texts, with a separator between each two. */
  function Joined(texts: seq<string>, sep: string, kept: seq<bool>): string
    requires |kept| == |texts|
  {
    if kept == [] then []
    else
      var n := |kept| - 1;
      var before := Joined(texts[..n], sep, kept[..n]);
      if !kept[n] then before
      else if true !in kept[..n] then texts[n]
      else before + sep + texts[n]
  }

  lemma {:induction false} CountOfNone(kept: seq<bool>)
    ensures Count(kept) == 0 <==> true !in kept
  {
    if kept != [] {
      CountOfNone(kept[..|kept| - 1]);
      assert kept == kept[..|kept| - 1] + [kept[|kept| - 1]];
    }
  }

  /** The width of a row is the length of its joined text. */
  lemma {:induction false} UsedIsJoined(texts: seq<string>, sep: string, widths: seq<nat>, kept: seq<bool>)
    requires |kept| == |texts| == |widths| && forall i :: 0 <= i < |texts| ==> widths[i] == |texts[i]|
    ensures Used(widths, |sep|, kept) == |Joined(texts, sep, kept)|
  {
    if kept != [] {
      var n := |kept| - 1;
      UsedIsJoined(texts[..n], sep, widths[..n], kept[..n]);
      CountOfNone(kept[..n]);
      OneSepMore(|sep|, Count(kept[..n]));
      if Count(kept[..n]) == 0 {
        NothingJoined(texts[..n], sep, kept[..n]);
      }
    }
  }

  lemma OneSepMore(sep: nat, count: nat)
    ensures count > 0 ==> sep * (count - 1) + sep == sep * count
  {
  }

  lemma {:induction false} NothingJoined(texts: seq<string>, sep: string, kept: seq<bool>)
    requires |kept| == |texts| && true !in kept
    ensures Joined(texts, sep, kept) == []
  {
    if kept != [] {
      NothingJoined(texts[..|kept| - 1], sep, kept[..|kept| - 1]);
    }
  }

  /** The kept flags after giving up the first `k` of the shed list. */
  ghost function After(n: nat, shed: seq<nat>, k: nat): (kept: seq<bool>)
    requires k <= |shed|
    ensures |kept| == n && Keeps(kept, shed[..k])
  {
    seq(n, i => i !in shed[..k])
  }

  lemma {:induction false} FewerIsNarrower(widths: seq<nat>, a: seq<bool>, b: seq<bool>)
    requires |a| == |b| == |widths| && forall i :: 0 <= i < |a| ==> a[i] ==> b[i]
    ensures Count(a) <= Count(b) && Text(widths, a) <= Text(widths, b)
  {
    if a == [] {
    } else {
      FewerIsNarrower(widths[..|a| - 1], a[..|a| - 1], b[..|a| - 1]);
    }
  }

  /** Giving up more never makes a row wider. */
  lemma SheddingNarrows(widths: seq<nat>, sep: nat, shed: seq<nat>, j: nat, k: nat)
    requires j <= k <= |shed|
    ensures Used(widths, sep, After(|widths|, shed, k)) <= Used(widths, sep, After(|widths|, shed, j))
  {
    var a, b := After(|widths|, shed, k), After(|widths|, shed, j);
    FewerIsNarrower(widths, a, b);
    SepOrder(sep, if Count(a) == 0 then 0 else Count(a) - 1, if Count(b) == 0 then 0 else Count(b) - 1);
  }

  lemma SepOrder(sep: nat, m: nat, n: nat)
    requires m <= n
    ensures sep * m <= sep * n
  {
  }

  /** `r` names each kept chunk once, from the left. */
  ghost predicate Listed(kept: seq<bool>, r: seq<nat>) {
    && (forall k :: 0 <= k < |r| ==> r[k] < |kept| && kept[r[k]])
    && (forall k, l :: 0 <= k < l < |r| ==> r[k] < r[l])
    && (forall i :: 0 <= i < |kept| && kept[i] ==> i in r)
  }

  /** Chunks are given up whole, in the declared order, and only until the rest
      fits; when nothing short of the whole list helps, the whole list goes, and
      what is left is drawn even if it does not fit. */
  method Fit(widths: seq<nat>, sep: nat, budget: nat, shed: seq<nat>) returns (r: seq<nat>, ghost given: nat)
    ensures given <= |shed| && Listed(After(|widths|, shed, given), r)
    ensures forall k :: 0 <= k < given ==> Used(widths, sep, After(|widths|, shed, k)) > budget
    ensures given < |shed| ==> Used(widths, sep, After(|widths|, shed, given)) <= budget
    ensures Used(widths, sep, After(|widths|, shed, given)) <= budget
       <==> Used(widths, sep, After(|widths|, shed, |shed|)) <= budget
  {
    hide Count, Text, Used;
    var kept := seq(|widths|, _ => true);
    given := 0;
    assert kept == After(|widths|, shed, 0);
    var s := 0;
    while s < |shed|
      invariant s <= |shed| && given == s && kept == After(|widths|, shed, s)
      invariant forall k :: 0 <= k < s ==> Used(widths, sep, After(|widths|, shed, k)) > budget
    {
      if Used(widths, sep, kept) <= budget {
        break;
      }
      if shed[s] < |kept| {
        kept := kept[shed[s] := false];
      }
      assert shed[..s + 1] == shed[..s] + [shed[s]];
      s := s + 1;
      given := s;
      assert kept == After(|widths|, shed, s);
    }
    SheddingNarrows(widths, sep, shed, given, |shed|);
    r := [];
    var i := 0;
    while i < |widths|
      invariant i <= |widths|
      invariant Listed(kept[..i], r)
    {
      assert kept[..i + 1] == kept[..i] + [kept[i]];
      if kept[i] {
        r := r + [i];
      }
      i := i + 1;
    }
    assert kept[..|widths|] == kept;
  }

  // ---------------------------------------------------------------- banners

  const ELLIPSIS := '\U{2026}'

  function Lower(c: char): char {
    if 'A' <= c <= 'Z' then (c as int + 32) as char else c
  }

  predicate EqIgnoreCase(a: string, b: string) {
    |a| == |b| && forall i :: 0 <= i < |a| ==> Lower(a[i]) == Lower(b[i])
  }

  /** Whether the user is worth naming. */
  predicate Named(user: string) {
    user != [] && !EqIgnoreCase(user, "default")
  }

  /** A text ends with another. */
  predicate EndsWith(s: string, tail: string) {
    |s| >= |tail| && s[|s| - |tail|..] == tail
  }

  /** What a panel calls its host. The user goes first, and only when it
      has to; then the start of the host, marked by an ellipsis where there is
      room for one, so the end of the host is always what is left. */
  function FitBanner(user: string, host: string, budget: nat): (r: string)
    ensures |r| <= budget
    ensures EndsWith(r, Shown(host, budget))
    ensures r == user + ['@'] + host <==> Named(user) && |user| + 1 + |host| <= budget
    ensures |host| > budget >= 2 ==> r == [ELLIPSIS] + Shown(host, budget)
  {
    if budget == 0 then []
    else if Named(user) && |user + ['@'] + host| <= budget then user + ['@'] + host
    else if |host| <= budget then host
    else if budget == 1 then [host[|host| - 1]]
    else [ELLIPSIS] + host[|host| - (budget - 1)..]
  }

  /** The part of a host name a banner of this budget can show once the user is gone. */
  function Shown(host: string, budget: nat): string {
    if |host| <= budget then host
    else if budget <= 1 then host[|host| - budget..]
    else host[|host| - (budget - 1)..]
  }

  /** The banner of `a`, who fits, spells the banner of `b`: `b` is called what
      `a` with its user is, or `b` is cut to what `a` has for a name. */
  predicate Spells(user: string, a: string, b: string, budget: nat) {
    && |a| <= budget
    && if |b| <= budget then Named(user) && b == user + ['@'] + a && |user| + 1 + |b| > budget
       else if budget <= 1 then a == Shown(b, budget)
       else a == [ELLIPSIS] + Shown(b, budget) || (Named(user) && user + ['@'] + a == [ELLIPSIS] + Shown(b, budget))
  }

  predicate Plain(s: string) {
    '@' !in s && ELLIPSIS !in s
  }

  /** Two machines render identically exactly when they have one name, when both
      names are too long and agree in the tail that is kept, or when the one
      spells the other. */
  lemma BannersCollide(user: string, a: string, b: string, budget: nat)
    ensures FitBanner(user, a, budget) == FitBanner(user, b, budget) <==>
            || a == b
            || (|a| > budget && |b| > budget && Shown(a, budget) == Shown(b, budget))
            || Spells(user, a, b, budget) || Spells(user, b, a, budget)
  {
    if |a| > budget && |b| > budget {
      CutBanners(Shown(a, budget), Shown(b, budget));
    } else if |a| > budget {
      WholeAndCut(user, b, a, budget);
    } else if |b| > budget {
      WholeAndCut(user, a, b, budget);
    } else {
      WholeBanners(user, a, b, budget);
    }
  }

  lemma CutBanners(a: string, b: string)
    ensures [ELLIPSIS] + a == [ELLIPSIS] + b <==> a == b
  {
    assert ([ELLIPSIS] + a)[1..] == a && ([ELLIPSIS] + b)[1..] == b;
  }

  lemma CutBanner(user: string, host: string, budget: nat)
    requires |host| > budget
    ensures |Shown(host, budget)| == if budget <= 1 then budget else budget - 1
    ensures FitBanner(user, host, budget)
         == if budget <= 1 then Shown(host, budget) else [ELLIPSIS] + Shown(host, budget)
  {
  }

  lemma WholeBanner(user: string, host: string, budget: nat)
    requires |host| <= budget
    ensures FitBanner(user, host, budget)
         == if Named(user) && |user| + 1 + |host| <= budget then user + ['@'] + host else host
  {
  }

  lemma WholeAndCut(user: string, a: string, b: string, budget: nat)
    requires |a| <= budget < |b|
    ensures FitBanner(user, a, budget) == FitBanner(user, b, budget) <==> Spells(user, a, b, budget)
  {
    hide FitBanner, Shown, EqIgnoreCase;
    CutBanner(user, b, budget);
    WholeBanner(user, a, budget);
  }

  lemma WholeBanners(user: string, a: string, b: string, budget: nat)
    requires |a| <= budget && |b| <= budget
    ensures FitBanner(user, a, budget) == FitBanner(user, b, budget) <==>
            a == b || Spells(user, a, b, budget) || Spells(user, b, a, budget)
  {
    hide Shown, EqIgnoreCase;
    var full := user + ['@'];
    assert (full + a)[|full|..] == a && (full + b)[|full|..] == b;
  }

  /** Names with neither an at sign nor an ellipsis, which host names are, can
      only collide by their tails: nothing spells anything else. */
  lemma PlainNamesDoNotSpell(user: string, a: string, b: string, budget: nat)
    requires Plain(a) && Plain(b) && ELLIPSIS !in user && budget >= 2
    ensures !Spells(user, a, b, budget)
  {
    hide EqIgnoreCase, Shown;
    assert (user + ['@'] + a)[|user|] == '@';
    assert user != [] ==> (user + ['@'] + a)[0] == user[0];
    assert ([ELLIPSIS] + Shown(b, budget))[0] == ELLIPSIS;
  }

  /** `alpha-web-01` and `beta-web-01` are one banner in six cells: an ellipsis and `eb-01`. */
  lemma TailsCollide(user: string)
    ensures FitBanner(user, "alpha-web-01", 6) == FitBanner(user, "beta-web-01", 6)
  {
    assert Shown("alpha-web-01", 6) == "eb-01" && Shown("beta-web-01", 6) == "eb-01";
    BannersCollide(user, "alpha-web-01", "beta-web-01", 6);
  }

  /** The user nobody chose is not named, in whatever case it is written. */
  lemma DefaultIsNotNamed(user: string, host: string, budget: nat)
    requires user == [] || user == "default" || user == "Default" || user == "DEFAULT"
    ensures FitBanner(user, host, budget) == FitBanner([], host, budget) != user + ['@'] + host
  {
    hide FitBanner, Named;
    SpellingsOfDefault();
    UnnamedBanner(user, host, budget);
    UnnamedBanner([], host, budget);
  }

  lemma UnnamedBanner(user: string, host: string, budget: nat)
    requires !Named(user)
    ensures FitBanner(user, host, budget) != user + ['@'] + host
    ensures FitBanner(user, host, budget) ==
            if |host| <= budget then host
            else if budget <= 1 then Shown(host, budget) else [ELLIPSIS] + Shown(host, budget)
  {
    hide Named;
  }

  lemma SpellingsOfDefault()
    ensures !Named([]) && !Named("default") && !Named("Default") && !Named("DEFAULT")
  {
    assert Lower('D') == 'd' && Lower('E') == 'e' && Lower('F') == 'f' && Lower('A') == 'a';
    assert Lower('U') == 'u' && Lower('L') == 'l' && Lower('T') == 't';
  }

  /** Any other is, where there is room. */
  lemma OthersAreNamed(user: string, host: string, budget: nat)
    requires user != [] && |user| != 7 && |user| + 1 + |host| <= budget
    ensures FitBanner(user, host, budget) == user + ['@'] + host
  {
  }
}
