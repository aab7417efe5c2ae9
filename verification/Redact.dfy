/**
 * Masking secrets in log lines by repeated left-to-right replacement, and exactly which secrets
 * that removes: those that cannot come back together across the edge of a mask.
 */
module Redact {
  import opened Text

  const MASK: string := "***REDACTED***"

  /** s.replace(t, mask): every occurrence from the left, without overlaps. */
  function Replace(s: string, t: string, mask: string): string
    requires t != ""
  {
    if s == "" then ""
    else if StartsWith(s, t) then mask + Replace(s[|t|..], t, mask)
    else [s[0]] + Replace(s[1..], t, mask)
  }

  /** One secret; the empty one is skipped. */
  function MaskOne(line: string, secret: string): string {
    if secret == "" then line else Replace(line, secret, MASK)
  }

  function Redacted(line: string, secrets: seq<string>): string {
    if secrets == [] then line
    else MaskOne(Redacted(line, secrets[..|secrets| - 1]), secrets[|secrets| - 1])
  }

  /** _redact. */
  method RedactLine(line: string, secrets: seq<string>) returns (r: string)
    ensures r == Redacted(line, secrets)
  {
    r := line;
    for i := 0 to |secrets|
      invariant r == Redacted(line, secrets[..i])
    {
      assert secrets[..i + 1][..i] == secrets[..i];
      if secrets[i] != "" {
        r := Replace(r, secrets[i], MASK);
      }
    }
    assert secrets[..|secrets|] == secrets;
  }

  // ---------------------------------------------------------------------------
  // Where a secret may reappear
  // ---------------------------------------------------------------------------

  /** Placed at offset d of the mask, the secret overlaps it and agrees with it on the overlap. */
  predicate ClashAt(t: string, mask: string, d: int) {
    && -|t| < d < |mask|
    && forall k :: 0 <= k < |mask| && d <= k < d + |t| ==> mask[k] == t[k - d]
  }

  predicate Clash(t: string, mask: string) {
    exists d :: -|t| < d < |mask| && ClashAt(t, mask, d)
  }

  /** A mask begins among the first n characters. */
  predicate MaskWithin(out: string, mask: string, n: nat) {
    exists p :: 0 <= p < n && OccursAt(out, mask, p)
  }

  lemma MaskWithinShift(out: string, mask: string, n: nat)
    requires out != "" && MaskWithin(out[1..], mask, n)
    ensures MaskWithin(out, mask, n + 1)
  {
    var p :| 0 <= p < n && OccursAt(out[1..], mask, p);
    OccursShift(out, mask, 1, p);
    assert OccursAt(out, mask, p + 1);
  }

  /** A prefix of the output is a prefix of the input, or reaches into a mask. */
  lemma {:induction false} PrefixOfReplace(s: string, t: string, mask: string, u: string)
    requires t != "" && StartsWith(Replace(s, t, mask), u)
    ensures StartsWith(s, u) || MaskWithin(Replace(s, t, mask), mask, |u|)
  {
    var out := Replace(s, t, mask);
    if u == "" || s == "" {
    } else if StartsWith(s, t) {
      assert OccursAt(out, mask, 0);
    } else {
      var rest := Replace(s[1..], t, mask);
      assert out[1..] == rest;
      assert out[..|u|][1..] == rest[..|u| - 1];
      assert u[0] == out[..|u|][0] == s[0];
      PrefixOfReplace(s[1..], t, mask, u[1..]);
      if StartsWith(s[1..], u[1..]) {
        PrefixCons(s, u);
      } else {
        MaskWithinShift(out, mask, |u| - 1);
      }
    }
  }

  lemma PrefixCons(s: string, u: string)
    requires s != "" && u != "" && s[0] == u[0] && StartsWith(s[1..], u[1..])
    ensures StartsWith(s, u)
  {
    assert s[..|u|] == [s[0]] + s[1..][..|u| - 1];
    assert u == [u[0]] + u[1..];
  }

  /** An occurrence that overlaps a mask agrees with it there. */
  lemma OverlapClashes(out: string, u: string, mask: string, i: nat, p: nat)
    requires OccursAt(out, u, i) && OccursAt(out, mask, p)
    requires i < p + |mask| && p < i + |u|
    ensures Clash(u, mask)
  {
    var d := i - p;
    forall k | 0 <= k < |mask| && d <= k < d + |u|
      ensures mask[k] == u[k - d]
    {
      assert out[p..p + |mask|][k] == out[p + k];
      assert out[i..i + |u|][k - d] == out[p + k];
    }
    assert ClashAt(u, mask, d);
  }

  lemma OccursShift(s: string, u: string, n: nat, i: int)
    requires n <= |s|
    ensures n <= i && OccursAt(s, u, i) ==> OccursAt(s[n..], u, i - n)
    ensures OccursAt(s[n..], u, i) ==> OccursAt(s, u, i + n)
  {
    if n <= i && OccursAt(s, u, i) {
      assert s[n..][i - n..i - n + |u|] == s[i..i + |u|];
    }
    if OccursAt(s[n..], u, i) {
      assert s[n..][i..i + |u|] == s[i + n..i + n + |u|];
    }
  }

  /** Replacing brings no text in that does not clash with the mask. */
  lemma {:induction false} ReplaceBringsNothing(s: string, t: string, mask: string, u: string, i: nat)
    requires t != "" && u != "" && mask != "" && !Clash(u, mask)
    requires OccursAt(Replace(s, t, mask), u, i)
    ensures Contains(s, u)
    decreases |s|
  {
    var out := Replace(s, t, mask);
    if StartsWith(s, t) {
      var rest := Replace(s[|t|..], t, mask);
      assert out == mask + rest;
      if i < |mask| {
        assert OccursAt(out, mask, 0);
        OverlapClashes(out, u, mask, i, 0);
      } else {
        assert out[|mask|..] == rest;
        OccursShift(out, u, |mask|, i);
        ReplaceBringsNothing(s[|t|..], t, mask, u, i - |mask|);
        var j :| 0 <= j <= |s[|t|..]| && OccursAt(s[|t|..], u, j);
        OccursShift(s, u, |t|, j);
      }
    } else if i == 0 {
      StartsClean(s, t, mask, u);
      assert OccursAt(s, u, 0);
    } else {
      assert out[1..] == Replace(s[1..], t, mask);
      OccursShift(out, u, 1, i);
      ReplaceBringsNothing(s[1..], t, mask, u, i - 1);
      var j :| 0 <= j <= |s[1..]| && OccursAt(s[1..], u, j);
      OccursShift(s, u, 1, j);
    }
  }

  /** An output that starts with such a text comes from an input that does. */
  lemma StartsClean(s: string, t: string, mask: string, u: string)
    requires t != "" && u != "" && mask != "" && !Clash(u, mask)
    requires OccursAt(Replace(s, t, mask), u, 0)
    ensures StartsWith(s, u)
  {
    var out := Replace(s, t, mask);
    PrefixOfReplace(s, t, mask, u);
    if !StartsWith(s, u) {
      var p :| 0 <= p < |u| && OccursAt(out, mask, p);
      OverlapClashes(out, u, mask, 0, p);
    }
  }

  /** Replacing a text that does not clash with the mask leaves none of it. */
  lemma {:induction false} ReplaceRemoves(s: string, t: string, mask: string, i: nat)
    requires t != "" && mask != "" && !Clash(t, mask)
    ensures !OccursAt(Replace(s, t, mask), t, i)
    decreases |s|
  {
    var out := Replace(s, t, mask);
    if OccursAt(out, t, i) {
      if StartsWith(s, t) {
        assert out == mask + Replace(s[|t|..], t, mask);
        if i < |mask| {
          assert OccursAt(out, mask, 0);
          OverlapClashes(out, t, mask, i, 0);
        } else {
          assert out[|mask|..] == Replace(s[|t|..], t, mask);
          OccursShift(out, t, |mask|, i);
          ReplaceRemoves(s[|t|..], t, mask, i - |mask|);
        }
      } else if i == 0 {
        StartsClean(s, t, mask, t);
      } else {
        assert out[1..] == Replace(s[1..], t, mask);
        OccursShift(out, t, 1, i);
        ReplaceRemoves(s[1..], t, mask, i - 1);
      }
    }
  }

  /** Text without the secret is unchanged. */
  lemma {:induction false} ReplaceAbsent(s: string, t: string, mask: string)
    requires t != "" && !Contains(s, t)
    ensures Replace(s, t, mask) == s
  {
    if s != "" {
      assert !OccursAt(s, t, 0);
      forall i | 0 <= i <= |s[1..]|
        ensures !OccursAt(s[1..], t, i)
      {
        OccursShift(s, t, 1, i);
      }
      ReplaceAbsent(s[1..], t, mask);
    }
  }

  // ---------------------------------------------------------------------------
  // The whole list
  // ---------------------------------------------------------------------------

  /** None of the secrets is left. */
  predicate Clean(s: string, secrets: seq<string>) {
    forall t :: t in secrets && t != "" ==> !Contains(s, t)
  }

  predicate NoClash(secrets: seq<string>) {
    forall t :: t in secrets && t != "" ==> !Clash(t, MASK)
  }

  lemma MaskOneKeepsOut(line: string, t: string, u: string)
    requires u != "" && !Clash(u, MASK) && !Contains(line, u)
    ensures !Contains(MaskOne(line, t), u)
  {
    if t != "" && Contains(MaskOne(line, t), u) {
      var i :| 0 <= i <= |MaskOne(line, t)| && OccursAt(MaskOne(line, t), u, i);
      ReplaceBringsNothing(line, t, MASK, u, i);
    }
  }

  lemma MaskOneRemoves(line: string, t: string)
    requires t != "" && !Clash(t, MASK)
    ensures !Contains(MaskOne(line, t), t)
  {
    forall i | 0 <= i <= |MaskOne(line, t)|
      ensures !OccursAt(MaskOne(line, t), t, i)
    {
      ReplaceRemoves(line, t, MASK, i);
    }
  }

  /** If no secret clashes with the mask, the output holds none of them, whatever their order or overlap. */
  lemma {:induction false} RedactionComplete(line: string, secrets: seq<string>)
    requires NoClash(secrets)
    ensures Clean(Redacted(line, secrets), secrets)
  {
    if secrets != [] {
      var init, last := secrets[..|secrets| - 1], secrets[|secrets| - 1];
      assert secrets == init + [last];
      RedactionComplete(line, init);
      forall t | t in secrets && t != ""
        ensures !Contains(Redacted(line, secrets), t)
      {
        if t == last {
          MaskOneRemoves(Redacted(line, init), t);
        } else {
          MaskOneKeepsOut(Redacted(line, init), last, t);
        }
      }
    }
  }

  /** A line with no secret in it is unchanged. */
  lemma {:induction false} CleanLineUnchanged(line: string, secrets: seq<string>)
    requires Clean(line, secrets)
    ensures Redacted(line, secrets) == line
  {
    if secrets != [] {
      var init, last := secrets[..|secrets| - 1], secrets[|secrets| - 1];
      assert secrets == init + [last];
      CleanLineUnchanged(line, init);
      if last != "" {
        ReplaceAbsent(line, last, MASK);
      }
    }
  }

  // ---------------------------------------------------------------------------
  // The condition is exact
  // ---------------------------------------------------------------------------

  lemma NotEarlier(s: string, t: string, n: nat)
    requires 0 < n <= |s| && forall p :: 0 <= p < n ==> !OccursAt(s, t, p)
    ensures forall p :: 0 <= p < n - 1 ==> !OccursAt(s[1..], t, p)
  {
    forall p | 0 <= p < n - 1
      ensures !OccursAt(s[1..], t, p)
    {
      OccursShift(s, t, 1, p);
      assert !OccursAt(s, t, p + 1);
    }
  }

  /** Before its first occurrence the replacement copies. */
  lemma {:induction false} ReplaceAfterPrefix(u: string, rest: string, t: string, mask: string)
    requires t != "" && StartsWith(rest, t)
    requires forall p :: 0 <= p < |u| ==> !OccursAt(u + rest, t, p)
    ensures Replace(u + rest, t, mask) == u + mask + Replace(rest[|t|..], t, mask)
  {
    var s := u + rest;
    if u == "" {
      assert s == rest;
    } else {
      assert !OccursAt(s, t, 0);
      assert s[1..] == u[1..] + rest;
      NotEarlier(s, t, |u|);
      ReplaceAfterPrefix(u[1..], rest, t, mask);
      assert u == [s[0]] + u[1..];
    }
  }

  lemma ShortText(v: string, t: string, mask: string)
    requires t != "" && |v| < |t|
    ensures Replace(v, t, mask) == v
  {
    ReplaceAbsent(v, t, mask);
  }

  /** What of the secret lies behind a mask that begins n characters into it. */
  function Behind(t: string, mask: string, n: int): string {
    if |t| <= n + |mask| then "" else if 0 <= n + |mask| then t[n + |mask|..] else ""
  }

  /** A line shows the secret to survive its own masking. */
  ghost predicate Survives(t: string, mask: string)
    requires t != ""
  {
    exists line :: Contains(Replace(line, t, mask), t)
  }

  lemma ShownBy(line: string, t: string, mask: string, i: nat)
    requires t != "" && OccursAt(Replace(line, t, mask), t, i)
    ensures Survives(t, mask)
  {
  }

  lemma TailOccurs(t: string, mask: string, d: nat)
    requires t != "" && d < |mask| && ClashAt(t, mask, d)
    ensures OccursAt(mask + Behind(t, mask, 0 - d), t, d)
  {
    var out := mask + Behind(t, mask, 0 - d);
    forall k | 0 <= k < |t|
      ensures out[d + k] == t[k]
    {
    }
    assert out[d..d + |t|] == t;
  }

  /** The secret begins inside the mask: the secret and its rest behind the mask show it. */
  lemma TailWitness(t: string, mask: string, d: nat)
    requires t != "" && d < |mask| && ClashAt(t, mask, d)
    ensures Survives(t, mask)
  {
    var v := Behind(t, mask, 0 - d);
    ShortText(v, t, mask);
    assert (t + v)[|t|..] == v;
    assert StartsWith(t + v, t);
    TailOccurs(t, mask, d);
    ShownBy(t + v, t, mask, d);
  }

  /** The part of the secret before the mask, the secret, and the part behind the mask. */
  function HeadLine(t: string, mask: string, n: nat): string
    requires n <= |t|
  {
    t[..n] + (t + Behind(t, mask, n))
  }

  lemma HeadOccurs(t: string, mask: string, n: nat)
    requires n < |t| && mask != "" && ClashAt(t, mask, 0 - n)
    ensures OccursAt(t[..n] + mask + Behind(t, mask, n), t, 0)
  {
    var out := t[..n] + mask + Behind(t, mask, n);
    forall k | 0 <= k < |t|
      ensures out[k] == t[k]
    {
      assert n <= k < n + |mask| ==> mask[k - n] == t[k];
    }
    assert out[..|t|] == t;
  }

  /** The secret begins before the mask: that line shows it, if the secret is first found where it was put. */
  lemma HeadWitness(t: string, mask: string, n: nat)
    requires 0 < n < |t| && mask != "" && ClashAt(t, mask, 0 - n)
    requires forall p :: 0 <= p < n ==> !OccursAt(HeadLine(t, mask, n), t, p)
    ensures Survives(t, mask)
  {
    var v := Behind(t, mask, n);
    assert (t + v)[|t|..] == v;
    assert HeadLine(t, mask, n) == t[..n] + (t + v);
    ReplaceAfterPrefix(t[..n], t + v, t, mask);
    ShortText(v, t, mask);
    HeadOccurs(t, mask, n);
    ShownBy(HeadLine(t, mask, n), t, mask, 0);
  }

  /** If the secret occurs in that line earlier, it overlaps itself, and starts as the mask does. */
  lemma EarlierStartsAlike(t: string, mask: string, n: nat, p: nat)
    requires 0 < n < |t| && mask != "" && ClashAt(t, mask, 0 - n)
    requires p < n && OccursAt(HeadLine(t, mask, n), t, p)
    ensures t[0] == mask[0]
  {
    var line := HeadLine(t, mask, n);
    assert line[p..p + |t|][0] == line[p] == t[p];
    assert line[p..p + |t|][n - p] == line[n] == t[0];
    assert line[p..p + |t|][n] == line[n + p] == t[p];
    assert mask[0] == t[n];
  }

  /** A secret that starts as the mask ends clashes with its last character. */
  lemma LastClash(t: string, mask: string)
    requires t != "" && mask != "" && t[0] == mask[|mask| - 1]
    ensures ClashAt(t, mask, |mask| - 1)
  {
  }

  lemma BeforeWitness(t: string, mask: string, n: nat)
    requires 0 < n < |t| && mask != "" && mask[0] == mask[|mask| - 1] && ClashAt(t, mask, 0 - n)
    ensures Survives(t, mask)
  {
    var line := HeadLine(t, mask, n);
    if p :| 0 <= p < n && OccursAt(line, t, p) {
      EarlierStartsAlike(t, mask, n, p);
      LastClash(t, mask);
      TailWitness(t, mask, |mask| - 1);
    } else {
      HeadWitness(t, mask, n);
    }
  }

  /** With a mask that ends as it begins, every secret that clashes with it survives in some line. */
  lemma ClashSurvives(t: string, mask: string)
    requires t != "" && mask != "" && mask[0] == mask[|mask| - 1] && Clash(t, mask)
    ensures Survives(t, mask)
  {
    var d :| -|t| < d < |mask| && ClashAt(t, mask, d);
    if d >= 0 {
      TailWitness(t, mask, d);
    } else {
      BeforeWitness(t, mask, -d);
    }
  }

  /** Masking a secret can leave it in some line iff it clashes with the mask. */
  lemma LeavesSecretIff(t: string)
    requires t != ""
    ensures (exists line :: Contains(MaskOne(line, t), t)) <==> Clash(t, MASK)
  {
    if Clash(t, MASK) {
      ClashSurvives(t, MASK);
      var line :| Contains(Replace(line, t, MASK), t);
      assert Contains(MaskOne(line, t), t);
    } else {
      forall line: string
        ensures !Contains(MaskOne(line, t), t)
      {
        MaskOneRemoves(line, t);
      }
    }
  }

  /** A secret of one star is replaced by more of them. */
  lemma StarSurvives()
    ensures Contains(MaskOne("*", "*"), "*")
  {
    assert MaskOne("*", "*") == MASK + Replace("", "*", MASK);
    assert OccursAt(MaskOne("*", "*"), "*", 0);
  }

  /** Every secret of these, in any lists and lines, is removed. */
  ghost predicate AlwaysClean(known: set<string>) {
    forall line: string, secrets: seq<string> ::
      (forall t :: t in secrets ==> t in known) ==> Clean(Redacted(line, secrets), secrets)
  }

  /** Redaction is complete for a set of secrets iff none of them clashes with the mask. */
  lemma CompleteIff(known: set<string>)
    ensures AlwaysClean(known) <==> forall t :: t in known && t != "" ==> !Clash(t, MASK)
  {
    if forall t :: t in known && t != "" ==> !Clash(t, MASK) {
      forall line: string, secrets: seq<string> | forall t :: t in secrets ==> t in known
        ensures Clean(Redacted(line, secrets), secrets)
      {
        RedactionComplete(line, secrets);
      }
    } else {
      var t :| t in known && t != "" && Clash(t, MASK);
      LeavesSecretIff(t);
      var line :| Contains(MaskOne(line, t), t);
      SingleSecret(line, t);
      assert t in [t] && !Clean(Redacted(line, [t]), [t]);
    }
  }

  lemma SingleSecret(line: string, t: string)
    ensures Redacted(line, [t]) == MaskOne(line, t)
  {
    assert [t][..0] == [];
  }

  // ---------------------------------------------------------------------------
  // Keys in practice
  // ---------------------------------------------------------------------------

  const WORD: string := "REDACTED"

  /** The mask is three stars, the word, three stars. */
  lemma MaskShape()
    ensures |MASK| == 14 && |WORD| == 8 && MASK[3..11] == WORD
    ensures forall k :: 0 <= k < 3 || 11 <= k < 14 ==> MASK[k] == '*'
  {
  }

  /** No character of the secret falls on a star. */
  lemma NotOnStar(t: string, mask: string, d: int, k: nat)
    requires '*' !in t && ClashAt(t, mask, d) && d <= k < d + |t| && k < |mask|
    ensures mask[k] != '*'
  {
    assert mask[k] == t[k - d];
    assert t[k - d] in t;
  }

  lemma PlainSecretAt(t: string, mask: string, word: string, d: int)
    requires |mask| == 14 && |word| == 8 && mask[3..11] == word
    requires forall k :: 0 <= k < 3 || 11 <= k < 14 ==> mask[k] == '*'
    requires t != "" && '*' !in t && ClashAt(t, mask, d)
    ensures Contains(word, t)
  {
    NotOnStar(t, mask, d, if d < 0 then 0 else d);
    if d <= 11 < d + |t| {
      NotOnStar(t, mask, d, 11);
    }
    assert 3 <= d && d + |t| <= 11;
    forall k | 0 <= k < |t|
      ensures word[d - 3 + k] == t[k]
    {
      assert mask[d + k] == t[k];
      assert mask[3..11][d - 3 + k] == mask[d + k];
    }
    assert word[d - 3..d - 3 + |t|] == t;
    assert OccursAt(word, t, d - 3);
  }

  /** A secret without '*' that is no part of the mask's word cannot clash. */
  lemma PlainSecretsDoNotClash(t: string)
    requires t != "" && '*' !in t && !Contains(WORD, t)
    ensures !Clash(t, MASK)
  {
    MaskShape();
    if d :| -|t| < d < |MASK| && ClashAt(t, MASK, d) {
      PlainSecretAt(t, MASK, WORD, d);
    }
  }

  // ---------------------------------------------------------------------------
  // One replacement, and the order of several
  // ---------------------------------------------------------------------------

  /** The first occurrence is at the end of `before`. */
  predicate FirstAt(line: string, secret: string, before: string, rest: string) {
    line == before + (secret + rest) && forall i :: 0 <= i < |before| ==> !OccursAt(line, secret, i)
  }

  /** The first occurrence becomes fourteen characters, and masking goes on behind it. */
  lemma {:induction false} FirstMasked(line: string, secret: string, before: string, rest: string)
    requires secret != "" && FirstAt(line, secret, before, rest)
    ensures Redacted(line, [secret]) == before + ("***REDACTED***" + Redacted(rest, [secret]))
  {
    FirstReplaced(line, secret, MASK, before, rest);
    assert [secret][..0] == [];
  }

  lemma {:induction false} FirstReplaced(line: string, secret: string, mask: string, before: string, rest: string)
    requires secret != "" && FirstAt(line, secret, before, rest)
    ensures Replace(line, secret, mask) == before + (mask + Replace(rest, secret, mask))
  {
    if before == "" {
      assert line == secret + rest;
      assert line[|secret|..] == rest;
    } else {
      assert !OccursAt(line, secret, 0);
      assert line[1..] == before[1..] + (secret + rest);
      forall i | 0 <= i < |before| - 1
        ensures !OccursAt(line[1..], secret, i)
      {
        OccursShift(line, secret, 1, i);
        assert !OccursAt(line, secret, i + 1);
      }
      FirstReplaced(line[1..], secret, mask, before[1..], rest);
      assert before == [before[0]] + before[1..];
    }
  }

  /** Secrets are masked one after the other, in the order given; empty ones do nothing. */
  lemma SecretsInTurn(line: string, secrets: seq<string>, secret: string)
    ensures Redacted(line, secrets + [secret]) == Redacted(Redacted(line, secrets), [secret])
    ensures Redacted(line, secrets + [""]) == Redacted(line, secrets)
  {
    assert (secrets + [secret])[..|secrets|] == secrets && (secrets + [""])[..|secrets|] == secrets;
    assert [secret][..0] == [];
  }
}
