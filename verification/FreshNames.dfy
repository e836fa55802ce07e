/** Names made distinct by numbering: decimal numerals and the first free candidate. */
module FreshNames {

  function Digit(d: nat): char
    requires d < 10
  {
    "0123456789"[d]
  }

  function Decimal(n: nat): (s: string)
    ensures |s| > 0
  {
    if n < 10 then [Digit(n)] else Decimal(n / 10) + [Digit(n % 10)]
  }

  lemma {:induction false} DecimalInjective(m: nat, n: nat)
    requires Decimal(m) == Decimal(n)
    ensures m == n
  {
    var s, t := Decimal(m), Decimal(n);
    assert s[|s| - 1] == Digit(m % 10) && t[|t| - 1] == Digit(n % 10);
    if m >= 10 && n >= 10 {
      assert s[..|s| - 1] == Decimal(m / 10) && t[..|t| - 1] == Decimal(n / 10);
      DecimalInjective(m / 10, n / 10);
    }
  }

  /** A numeral read by position, the last digit counting ones. */
  function Read(s: string): int {
    if s == "" then 0 else 10 * Read(s[..|s| - 1]) + (s[|s| - 1] as int - '0' as int)
  }

  /** A numeral has the value it was made for, digits only, and no leading zero. */
  lemma {:induction false} DecimalReads(n: nat)
    ensures Read(Decimal(n)) == n
    ensures forall i :: 0 <= i < |Decimal(n)| ==> '0' <= Decimal(n)[i] <= '9'
    ensures n > 0 ==> Decimal(n)[0] != '0'
  {
    DigitIs(n % 10);
    if n < 10 {
      assert Decimal(n)[..0] == "";
    } else {
      DecimalReads(n / 10);
      assert Decimal(n)[..|Decimal(n)| - 1] == Decimal(n / 10);
    }
  }

  lemma DigitIs(d: nat)
    requires d < 10
    ensures Digit(d) as int == '0' as int + d
  {
  }

  /** The names tried in turn: the base itself, then the base with `2`, `3` and so on after a separator. */
  function Candidate(base: string, sep: string, n: nat): string
    requires n >= 1
  {
    if n == 1 then base else base + sep + Decimal(n)
  }

  lemma CandidatesDiffer(base: string, sep: string, m: nat, n: nat)
    requires 1 <= m < n
    ensures Candidate(base, sep, m) != Candidate(base, sep, n)
  {
    if m > 1 && Candidate(base, sep, m) == Candidate(base, sep, n) {
      var s, t := Candidate(base, sep, m), Candidate(base, sep, n);
      assert s[|base| + |sep|..] == Decimal(m) && t[|base| + |sep|..] == Decimal(n);
      DecimalInjective(m, n);
    }
  }

  lemma {:induction false} DecimalHasDigits(n: nat)
    ensures forall i :: 0 <= i < |Decimal(n)| ==> Decimal(n)[i] in "0123456789"
  {
    if n >= 10 {
      DecimalHasDigits(n / 10);
    }
  }

  /** A second candidate is only ever the second candidate of its own base, or a base itself. */
  lemma SecondCandidateIs(base: string, b: string, n: nat)
    requires n >= 1 && Candidate(b, "_", n) == Candidate(base, "_", 2)
    ensures (n == 1 && b == Candidate(base, "_", 2)) || (n == 2 && b == base)
  {
    if n > 1 {
      var whole, d := Candidate(b, "_", n), Decimal(n);
      assert Decimal(2) == "2" && whole == base + "_2";
      DigitNextToLast(b, n);
      assert whole[|whole| - 2] == '_';
      assert whole[..|whole| - 2] == b && whole[..|whole| - 2] == base;
      assert d == [whole[|whole| - 1]] && whole[|whole| - 1] == '2';
      DecimalInjective(n, 2);
    }
  }

  lemma DigitNextToLast(b: string, n: nat)
    requires n > 1
    ensures var whole := Candidate(b, "_", n);
            |whole| >= 2 && (|Decimal(n)| > 1 ==> whole[|whole| - 2] in "0123456789")
  {
    DecimalHasDigits(n);
    var whole, d := Candidate(b, "_", n), Decimal(n);
    assert |d| > 1 ==> whole[|whole| - 2] == d[|d| - 2];
  }

  ghost predicate AllTaken(base: string, sep: string, used: set<string>, n: nat) {
    forall k :: 1 <= k < n ==> Candidate(base, sep, k) in used
  }

  /** A finite set holds fewer candidates than it has members, so one of the next is free. */
  lemma {:induction false} TakenAreFew(base: string, sep: string, used: set<string>, n: nat)
    requires n >= 1 && AllTaken(base, sep, used, n)
    ensures n - 1 <= |used|
    decreases n
  {
    if n > 1 {
      var last := Candidate(base, sep, n - 1);
      forall k | 1 <= k < n - 1
        ensures Candidate(base, sep, k) in used - {last}
      {
        CandidatesDiffer(base, sep, k, n - 1);
      }
      TakenAreFew(base, sep, used - {last}, n - 1);
    }
  }

  /** The least free candidate at or after the n-th. */
  ghost function FirstFreeFrom(base: string, sep: string, used: set<string>, n: nat): (k: nat)
    requires n >= 1 && AllTaken(base, sep, used, n)
    ensures n <= k <= |used| + 1 && AllTaken(base, sep, used, k) && Candidate(base, sep, k) !in used
    decreases |used| + 1 - n
  {
    TakenAreFew(base, sep, used, n);
    if Candidate(base, sep, n) !in used then n
    else
      assert AllTaken(base, sep, used, n + 1);
      TakenAreFew(base, sep, used, n + 1);
      FirstFreeFrom(base, sep, used, n + 1)
  }

  ghost function FreeName(base: string, sep: string, used: set<string>): (name: string)
    ensures name !in used
    ensures name == base <==> base !in used
  {
    var k := FirstFreeFrom(base, sep, used, 1);
    if k > 1 then
      CandidatesDiffer(base, sep, 1, k);
      assert Candidate(base, sep, 1) == base;
      Candidate(base, sep, k)
    else Candidate(base, sep, k)
  }

  lemma FreeNameIsCandidate(base: string, sep: string, used: set<string>) returns (n: nat)
    ensures n >= 1 && FreeName(base, sep, used) == Candidate(base, sep, n) && AllTaken(base, sep, used, n)
  {
    n := FirstFreeFrom(base, sep, used, 1);
  }

  lemma FreeNameIs(base: string, sep: string, used: set<string>, n: nat)
    requires n >= 1 && AllTaken(base, sep, used, n) && Candidate(base, sep, n) !in used
    ensures FreeName(base, sep, used) == Candidate(base, sep, n)
  {
    var k := FirstFreeFrom(base, sep, used, 1);
    assert !(k < n);
  }

  /** The numbering loop: try the base, then the base with 2, 3 and so on. */
  method NextFree(base: string, sep: string, used: set<string>) returns (name: string)
    ensures name == FreeName(base, sep, used)
  {
    name := base;
    var n := 2;
    while name in used
      invariant n >= 2 && name == Candidate(base, sep, n - 1) && AllTaken(base, sep, used, n - 1)
      decreases |used| + 2 - n
    {
      assert AllTaken(base, sep, used, n);
      TakenAreFew(base, sep, used, n);
      name := base + sep + Decimal(n);
      n := n + 1;
    }
    FreeNameIs(base, sep, used, n - 1);
  }
}
