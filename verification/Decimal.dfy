/** Decimal rendering of a counter, and that it can be read back. */
module Decimal {
  function Digit(d: nat): (c: char)
    requires d < 10
    ensures '0' <= c <= '9'
  {
    '0' + d as char
  }

  /** str(n) of a non-negative integer. */
  function Render(n: nat): (s: string)
    ensures s != ""
    ensures forall i :: 0 <= i < |s| ==> '0' <= s[i] <= '9'
  {
    if n < 10 then [Digit(n)] else Render(n / 10) + [Digit(n % 10)]
  }

  function Read(s: string): int {
    if s == "" then 0 else 10 * Read(s[..|s| - 1]) + (s[|s| - 1] as int - '0' as int)
  }

  lemma {:induction false} ReadRender(n: nat)
    ensures Read(Render(n)) == n
  {
    if n >= 10 {
      ReadRender(n / 10);
      assert Render(n)[..|Render(n)| - 1] == Render(n / 10);
    } else {
      assert Render(n)[..|Render(n)| - 1] == "";
    }
  }

  lemma RenderInjective(m: nat, n: nat)
    requires Render(m) == Render(n)
    ensures m == n
  {
    ReadRender(m);
    ReadRender(n);
  }

  /** The last digit of a number, and its other digits in front. */
  lemma {:induction false} RenderDigits(n: nat, d: nat)
    requires d < 10
    ensures Render(d) == ["0123456789"[d]]
    ensures n > 0 ==> Render(10 * n + d) == Render(n) + ["0123456789"[d]]
  {
  }
}
