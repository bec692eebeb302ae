/** Ticket references `CT-0001`, `CT-0002`, ... (next_reference in backend/crm/tickets.py).

    The last reference is found by ordering the column as text, so numbers are compared
    digit by digit, padded to four. */
module References {

  function Digits(n: nat): seq<nat> {
    if n < 10 then [n] else Digits(n / 10) + [n % 10]
  }

  /** `f"{n:04d}"`, digit by digit. */
  function Padded(n: nat): seq<nat> {
    if n < 10_000 then [n / 1000, n % 1000 / 100, n % 1000 % 100 / 10, n % 1000 % 100 % 10] else Digits(n)
  }

  /** Text order: the first difference decides, and a prefix comes first. */
  predicate TextLess(a: seq<nat>, b: seq<nat>) {
    if b == [] then false
    else if a == [] then true
    else a[0] < b[0] || (a[0] == b[0] && TextLess(a[1..], b[1..]))
  }

  function Issued(k: nat): (r: set<nat>)
    ensures forall n :: n in r <==> 1 <= n <= k
  {
    if k == 0 then {} else Issued(k - 1) + {k}
  }

  /** `order_by("-reference").first()`. */
  ghost predicate IsLatest(issued: set<nat>, n: nat) {
    n in issued && forall m | m in issued && m != n :: TextLess(Padded(m), Padded(n))
  }

  lemma FourDigits(a: nat, b: nat, c: nat, d: nat, e: nat, f: nat, g: nat, h: nat)
    requires b < 10 && c < 10 && d < 10 && f < 10 && g < 10 && h < 10
    ensures TextLess([a, b, c, d], [e, f, g, h]) <==> 1000 * a + 100 * b + 10 * c + d < 1000 * e + 100 * f + 10 * g + h
  {
    var x, y := [a, b, c, d], [e, f, g, h];
    assert x[1..] == [b, c, d] && [b, c, d][1..] == [c, d] && [c, d][1..] == [d] && [d][1..] == [];
    assert y[1..] == [f, g, h] && [f, g, h][1..] == [g, h] && [g, h][1..] == [h] && [h][1..] == [];
    assert TextLess([d], [h]) <==> d < h;
    assert TextLess([c, d], [g, h]) <==> c < g || (c == g && d < h);
    assert TextLess([b, c, d], [f, g, h]) <==> b < f || (b == f && TextLess([c, d], [g, h]));
  }

  /** Up to four digits, text order is number order. */
  lemma PaddedOrder(m: nat, n: nat)
    requires m < 10_000 && n < 10_000
    ensures TextLess(Padded(m), Padded(n)) <==> m < n
  {
    var r, q := m % 1000, n % 1000;
    var t, u := r % 100, q % 100;
    FourDigits(m / 1000, r / 100, t / 10, t % 10, n / 1000, q / 100, u / 10, u % 10);
  }

  /** 10000 sorts before 9999. */
  lemma FiveDigitsComeFirst()
    ensures TextLess(Padded(10_000), Padded(9999)) && !TextLess(Padded(9999), Padded(10_000))
  {
  }

  /** The next reference is new exactly while at most 9999 have been issued: the one after
      CT-10000 would be CT-10000 again, which the unique column refuses. */
  lemma ReferencesAreFreshExactly(k: nat, n: nat)
    requires 1 <= k <= 10_000 && IsLatest(Issued(k), n)
    ensures n + 1 !in Issued(k) <==> k <= 9999
    ensures n == if k <= 9999 then k else 9999
  {
    if k <= 9999 {
      assert k in Issued(k);
      if n != k { PaddedOrder(k, n); }
    } else {
      FiveDigitsComeFirst();
      assert 9999 in Issued(k) && 10_000 in Issued(k);
      if n != 9999 && n != 10_000 { PaddedOrder(9999, n); }
    }
  }

  /** There is always a latest one to find: the last issued up to 9999, and CT-9999 once
      CT-10000 has been issued, so the one after that is CT-10000 a second time. */
  lemma LatestExists(k: nat)
    requires 1 <= k <= 10_000
    ensures IsLatest(Issued(k), if k <= 9999 then k else 9999)
    ensures k == 10_000 ==> 9999 + 1 in Issued(k)
  {
    var n := if k <= 9999 then k else 9999;
    FiveDigitsComeFirst();
    forall m | m in Issued(k) && m != n ensures TextLess(Padded(m), Padded(n)) {
      if m < 10_000 { PaddedOrder(m, n); }
    }
  }
}
