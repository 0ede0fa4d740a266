/** The blessing selector of the Diwali blessings card: three counts from a
    GitHub profile (public repositories, followers, recent public events)
    are turned into capped scores, a weighted total in [0, 1], the index of
    one of four fixed greetings, and finally the greeting followed by a
    personal sentence that repeats the repository and follower counts.
    Arithmetic is exact (`real`), not IEEE-754 doubles. */
module Blessing {
  import opened Decimal

  /** The fields of a GitHub user record that the selector reads. */
  datatype User = User(publicRepos: nat, followers: nat)

  /** Counts at which each score saturates. */
  const RepoCap: nat := 20
  const FollowerCap: nat := 50
  const ActivityCap: nat := 10

  /** Weights of the three scores in the total; they sum to 1. */
  const RepoWeight: real := 0.4
  const FollowerWeight: real := 0.3
  const ActivityWeight: real := 0.3

  /** The greetings, from the least to the most active profile. */
  const Templates: seq<string> := [
    "May your repo stars multiply like fireworks and your code bring light to many!",
    "Wishing you a Diwali full of bright commits, merged PRs, and joyful reviews!",
    "May this festival of lights bring you creative ideas and bug-free nights!",
    "May your branches be conflict-free and your celebrations sparkling with joy!"
  ]

  /** `Math.min` on two numbers: the smaller of the two. */
  function Min(a: real, b: real): (m: real)
    ensures m <= a && m <= b
    ensures m == a || m == b
  {
    if a <= b then a else b
  }

  /** `Math.min(1, count / cap)`: the count as a fraction of its cap, never
      above 1; it is 1 exactly when the count has reached the cap, and
      otherwise scales the count linearly. */
  function ClampedRatio(count: nat, cap: nat): (s: real)
    requires cap > 0
    ensures 0.0 <= s <= 1.0
    ensures s == 1.0 <==> count >= cap
    ensures s * (cap as real) == (if count < cap then count else cap) as real
  {
    RatioBelowOne(count, cap);
    Min(1.0, count as real / cap as real)
  }

  /** A count divided by its cap is below 1 exactly when the count is below
      the cap. */
  lemma RatioBelowOne(count: nat, cap: nat)
    requires cap > 0
    ensures (count as real / cap as real) * (cap as real) == count as real
    ensures count as real / cap as real < 1.0 <==> count < cap
  {
    var x, c := count as real, cap as real;
    var q := x / c;
    assert q * c == x;
    if q < 1.0 {
      assert (1.0 - q) * c > 0.0;
      assert (1.0 - q) * c == c - x;
    } else {
      assert (q - 1.0) * c >= 0.0;
      assert (q - 1.0) * c == x - c;
    }
  }

  /** Raising a count never lowers its score. */
  lemma ClampedRatioMonotone(a: nat, b: nat, cap: nat)
    requires cap > 0 && a <= b
    ensures ClampedRatio(a, cap) <= ClampedRatio(b, cap)
  {
    var c := cap as real;
    assert b as real / c - a as real / c == (b - a) as real / c;
    assert (b - a) as real / c >= 0.0;
  }

  /** The weighted total of the three scores: within [0, 1], equal to 1
      exactly when all three counts have reached their caps, and 0 exactly
      when all three counts are 0. */
  function Total(repos: nat, followers: nat, events: nat): (t: real)
    ensures 0.0 <= t <= 1.0
    ensures t == 1.0 <==> repos >= RepoCap && followers >= FollowerCap && events >= ActivityCap
    ensures t == 0.0 <==> repos == 0 && followers == 0 && events == 0
  {
    var repoScore := ClampedRatio(repos, RepoCap);
    var followerScore := ClampedRatio(followers, FollowerCap);
    var activityScore := ClampedRatio(events, ActivityCap);
    repoScore * RepoWeight + followerScore * FollowerWeight + activityScore * ActivityWeight
  }

  /** Raising any of the counts never lowers the total. */
  lemma TotalMonotone(r1: nat, f1: nat, e1: nat, r2: nat, f2: nat, e2: nat)
    requires r1 <= r2 && f1 <= f2 && e1 <= e2
    ensures Total(r1, f1, e1) <= Total(r2, f2, e2)
  {
    ClampedRatioMonotone(r1, r2, RepoCap);
    ClampedRatioMonotone(f1, f2, FollowerCap);
    ClampedRatioMonotone(e1, e2, ActivityCap);
  }

  /** The total in closed form: a whole number of 500ths, with 10 per
      repository up to 20, 3 per follower up to 50 and 15 per event up to 10. */
  lemma TotalClosedForm(repos: nat, followers: nat, events: nat)
    ensures Total(repos, followers, events) * 500.0
         == (10 * (if repos < RepoCap then repos else RepoCap)
           + 3 * (if followers < FollowerCap then followers else FollowerCap)
           + 15 * (if events < ActivityCap then events else ActivityCap)) as real
  {
    var a := ClampedRatio(repos, RepoCap);
    var b := ClampedRatio(followers, FollowerCap);
    var c := ClampedRatio(events, ActivityCap);
    assert Total(repos, followers, events) * 500.0 == a * 20.0 * 10.0 + b * 50.0 * 3.0 + c * 10.0 * 15.0;
  }

  /** The only totals at which `total * 3` is a whole number are 0 and 1, so
      no total ever sits exactly on the 1/3 or 2/3 boundary between templates. */
  lemma NoInteriorBoundary(repos: nat, followers: nat, events: nat, k: int)
    requires Total(repos, followers, events) * 3.0 == k as real
    ensures k == 0 || k == 3
  {
    TotalClosedForm(repos, followers, events);
    var n := 10 * (if repos < RepoCap then repos else RepoCap)
           + 3 * (if followers < FollowerCap then followers else FollowerCap)
           + 15 * (if events < ActivityCap then events else ActivityCap);
    assert (3 * n) as real == (500 * k) as real;
    assert 3 * n == 500 * k;
    assert 0 <= n <= 500;
  }

  /** `Math.floor(total * (templates.length - 1))`: the index is the whole
      part of the total scaled to the last template position, so a total in
      [0, 1] always lands on a template, and a total of 1 on the last one. */
  function TemplateIndex(total: real): (idx: int)
    ensures idx as real <= total * (|Templates| - 1) as real < idx as real + 1.0
    ensures 0.0 <= total <= 1.0 ==> 0 <= idx < |Templates|
    ensures total == 1.0 ==> idx == |Templates| - 1
  {
    (total * (|Templates| - 1) as real).Floor
  }

  /** A larger total never gives a smaller index. */
  lemma TemplateIndexMonotone(t1: real, t2: real)
    requires t1 <= t2
    ensures TemplateIndex(t1) <= TemplateIndex(t2)
  {
    var i1, i2 := TemplateIndex(t1), TemplateIndex(t2);
    assert i1 as real <= t1 * 3.0 <= t2 * 3.0 < i2 as real + 1.0;
  }

  /** `templates[idx] || templates[0]`: the template at `idx` when that is a
      position of the list holding a non-empty string, else the first one.
      Whatever the index, the result is one of the templates, and for every
      position of the list it is the template at that position, because no
      template is empty. */
  function Base(idx: int): (base: string)
    ensures base in Templates
    ensures 0 <= idx < |Templates| ==> base == Templates[idx]
    ensures !(0 <= idx < |Templates|) ==> base == Templates[0]
  {
    if 0 <= idx < |Templates| && Templates[idx] != "" then Templates[idx] else Templates[0]
  }

  /** The index the selector computes for a user and a number of events. */
  function ChosenIndex(user: User, eventCount: nat): (k: int)
    ensures 0 <= k < |Templates|
  {
    TemplateIndex(Total(user.publicRepos, user.followers, eventCount))
  }

  /** The fixed phrases of the personal sentence. */
  const PersonalLead: string := "You have "
  const PersonalMid: string := " public repos and "
  const PersonalTrailer: string := " followers \U{2014} keep shining!"

  /** The personal sentence with the counts interpolated: the lead phrase,
      the digits of the repository count, the middle phrase, the digits of
      the follower count and the trailer, in that order and nothing else;
      each run of digits reads back as its count. */
  function Personal(user: User): (p: string)
    ensures var r, f := |NatToString(user.publicRepos)|, |NatToString(user.followers)|;
      var i, j := |PersonalLead| + r, |PersonalLead| + r + |PersonalMid|;
      && |p| == j + f + |PersonalTrailer|
      && p[..|PersonalLead|] == PersonalLead
      && AllDigits(p[|PersonalLead|..i]) && ValueOf(p[|PersonalLead|..i]) == user.publicRepos
      && p[i..j] == PersonalMid
      && AllDigits(p[j..j + f]) && ValueOf(p[j..j + f]) == user.followers
      && p[j + f..] == PersonalTrailer
  {
    var r, f := NatToString(user.publicRepos), NatToString(user.followers);
    ValueOfNatToString(user.publicRepos);
    ValueOfNatToString(user.followers);
    var p := PersonalLead + r + PersonalMid + f + PersonalTrailer;
    var i, j := |PersonalLead| + |r|, |PersonalLead| + |r| + |PersonalMid|;
    assert p[..|PersonalLead|] == PersonalLead;
    assert p[|PersonalLead|..i] == r;
    assert p[i..j] == PersonalMid;
    assert p[j..j + |f|] == f;
    assert p[j + |f|..] == PersonalTrailer;
    p
  }

  /** `generateBlessing(user, events)`: a greeting, one space, then the
      personal sentence. The result is never empty, ends with the personal
      sentence, and what comes before the separating space is one of the
      templates. */
  function GenerateBlessing<E>(user: User, events: seq<E>): (msg: string)
    ensures |msg| > |Personal(user)|
    ensures msg[|msg| - |Personal(user)|..] == Personal(user)
    ensures msg[|msg| - |Personal(user)| - 1] == ' '
    ensures msg[..|msg| - |Personal(user)| - 1] in Templates
  {
    var total := Total(user.publicRepos, user.followers, |events|);
    var idx := TemplateIndex(total);
    var base := Base(idx);
    var personal := Personal(user);
    assert (base + " " + personal)[..|base|] == base;
    base + " " + personal
  }

  /** The `|| templates[0]` fallback never fires: the greeting is exactly the
      template at the computed index. */
  lemma FallbackNeverFires<E>(user: User, events: seq<E>)
    ensures GenerateBlessing(user, events)
         == Templates[ChosenIndex(user, |events|)] + " " + Personal(user)
  {
  }

  /** The first template is chosen exactly when the total is below 1/3;
      in particular a profile with no repositories, no followers and no
      events gets the first template. */
  lemma FirstTemplateExactly(user: User, eventCount: nat)
    ensures ChosenIndex(user, eventCount) == 0
        <==> Total(user.publicRepos, user.followers, eventCount) * 3.0 < 1.0
    ensures user.publicRepos == 0 && user.followers == 0 && eventCount == 0
        ==> ChosenIndex(user, eventCount) == 0
  {
  }

  /** The last template is chosen exactly when all three counts have reached
      their caps (20 repositories, 50 followers, 10 events). */
  lemma LastTemplateExactly(user: User, eventCount: nat)
    ensures ChosenIndex(user, eventCount) == |Templates| - 1
        <==> user.publicRepos >= RepoCap && user.followers >= FollowerCap && eventCount >= ActivityCap
  {
  }

  /** Raising any of the three counts, the others fixed or raised too, never
      lowers the chosen template index. */
  lemma ChosenIndexMonotone(u1: User, e1: nat, u2: User, e2: nat)
    requires u1.publicRepos <= u2.publicRepos && u1.followers <= u2.followers && e1 <= e2
    ensures ChosenIndex(u1, e1) <= ChosenIndex(u2, e2)
  {
    TotalMonotone(u1.publicRepos, u1.followers, e1, u2.publicRepos, u2.followers, e2);
    TemplateIndexMonotone(Total(u1.publicRepos, u1.followers, e1), Total(u2.publicRepos, u2.followers, e2));
  }

  /** Only the number of events matters, never their contents. */
  lemma OnlyEventCountMatters<E>(user: User, a: seq<E>, b: seq<E>)
    requires |a| == |b|
    ensures GenerateBlessing(user, a) == GenerateBlessing(user, b)
  {
  }

  /** A run of digits between a non-digit and a fixed trailer is read off
      unambiguously. */
  lemma ReadTrailingDigits(a: string, d: string, b: string, e: string, trailer: string)
    requires a + d + trailer == b + e + trailer
    requires AllDigits(d) && AllDigits(e)
    requires |a| > 0 && !IsDigit(a[|a| - 1])
    requires |b| > 0 && !IsDigit(b[|b| - 1])
    ensures a == b && d == e
  {
    var s := a + d + trailer;
    assert |a| + |d| == |b| + |e|;
    var x := s[..|a| + |d|];
    assert x == a + d && x == b + e;
    assert a == x[..|a|] && b == x[..|b|];
    assert d == x[|a|..] && e == x[|b|..];
  }

  /** The personal sentence ends in the follower count and a fixed trailer,
      and the repository count sits between two fixed phrases. */
  lemma MessageLayout(b: string, u: User)
    ensures b + " " + Personal(u)
         == ((b + " " + PersonalLead) + NatToString(u.publicRepos) + PersonalMid)
            + NatToString(u.followers) + PersonalTrailer
  {
  }

  /** Whatever greeting precedes it, the personal sentence determines both
      counts. */
  lemma PersonalDeterminesCounts(b1: string, u1: User, b2: string, u2: User)
    requires b1 + " " + Personal(u1) == b2 + " " + Personal(u2)
    ensures u1 == u2
  {
    var mid := PersonalMid;
    var r1, f1 := NatToString(u1.publicRepos), NatToString(u1.followers);
    var r2, f2 := NatToString(u2.publicRepos), NatToString(u2.followers);
    var lead1, lead2 := b1 + " " + PersonalLead, b2 + " " + PersonalLead;
    MessageLayout(b1, u1);
    MessageLayout(b2, u2);
    var p1, p2 := lead1 + r1 + mid, lead2 + r2 + mid;
    assert p1[|p1| - 1] == ' ' && p2[|p2| - 1] == ' ';
    ReadTrailingDigits(p1, f1, p2, f2, PersonalTrailer);
    assert lead1[|lead1| - 1] == ' ' && lead2[|lead2| - 1] == ' ';
    ReadTrailingDigits(lead1, r1, lead2, r2, mid);
    NatToStringInjective(u1.publicRepos, u2.publicRepos);
    NatToStringInjective(u1.followers, u2.followers);
  }

  /** The message reports the counts faithfully: two users with different
      repository or follower counts never receive the same message. */
  lemma CountsRecoverable<E>(u1: User, ev1: seq<E>, u2: User, ev2: seq<E>)
    requires GenerateBlessing(u1, ev1) == GenerateBlessing(u2, ev2)
    ensures u1 == u2
  {
    FallbackNeverFires(u1, ev1);
    FallbackNeverFires(u2, ev2);
    PersonalDeterminesCounts(Templates[ChosenIndex(u1, |ev1|)], u1, Templates[ChosenIndex(u2, |ev2|)], u2);
  }
}
