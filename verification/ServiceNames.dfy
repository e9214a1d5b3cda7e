/** The names of the router services, and why no two of them coincide. */
module ServiceNames {

  /** A service type; each has its own name suffix. */
  datatype Kind = ClusterIP | LoadBalancer | NodePort

  /** The service of one type for one endpoint of one router replica. */
  datatype Slot = Slot(replica: nat, endpoint: nat, kind: Kind)

  function Digit(d: nat): char
    requires d < 10
  {
    "0123456789"[d]
  }

  /** `%d` of a natural number. */
  function Decimal(n: nat): (s: string)
    ensures s != "" && forall c :: c in s ==> IsDigit(c)
  {
    if n < 10 then [Digit(n)] else Decimal(n / 10) + [Digit(n % 10)]
  }

  predicate IsDigit(c: char) {
    '0' <= c <= '9'
  }

  function Suffix(kind: Kind): string {
    match kind
    case ClusterIP => ""
    case LoadBalancer => "-lb"
    case NodePort => "-np"
  }

  /** The part of a name after the replica number. */
  function Tail(endpoint: nat, kind: Kind): string {
    (if endpoint == 0 then "" else "-" + Decimal(endpoint)) + Suffix(kind)
  }

  function RouterName(instance: string, replica: nat): string {
    instance + "-router-" + Decimal(replica)
  }

  /** The name of a replica and endpoint without the suffix of the type: endpoint 0 is not spelled out. */
  function ServiceName(instance: string, replica: nat, endpoint: nat): string {
    if endpoint == 0 then RouterName(instance, replica)
    else RouterName(instance, replica) + "-" + Decimal(endpoint)
  }

  function Name(instance: string, slot: Slot): string {
    ServiceName(instance, slot.replica, slot.endpoint) + Suffix(slot.kind)
  }

  // ---------------------------------------------------------------- numbers

  function Value(s: string): int {
    if s == "" then 0 else 10 * Value(s[..|s| - 1]) + (s[|s| - 1] as int - '0' as int)
  }

  lemma {:induction false} DecimalValue(n: nat)
    ensures Value(Decimal(n)) == n
  {
    if n < 10 {
      assert [Digit(n)][..0] == "";
    } else {
      DecimalValue(n / 10);
      assert Decimal(n)[..|Decimal(n)| - 1] == Decimal(n / 10);
    }
  }

  /** A number is written without leading zeros. */
  lemma {:induction false} DecimalWithoutLeadingZeros(n: nat)
    ensures n > 0 ==> Decimal(n)[0] != '0'
    ensures n == 0 ==> Decimal(n) == "0"
  {
    if n >= 10 {
      DecimalWithoutLeadingZeros(n / 10);
    }
  }

  /** Digits followed by nothing or by a dash split in one way only. */
  lemma {:induction false} DigitsThenDash(a: string, s: string, b: string, t: string)
    requires a + s == b + t
    requires (forall c :: c in a ==> IsDigit(c)) && (forall c :: c in b ==> IsDigit(c))
    requires (s == "" || s[0] == '-') && (t == "" || t[0] == '-')
    ensures a == b && s == t
  {
    assert a != "" ==> a[0] in a && (a + s)[0] == a[0];
    assert b != "" ==> b[0] in b && (b + t)[0] == b[0];
    if a != "" && b != "" {
      assert a[1..] + s == (a + s)[1..] && b[1..] + t == (b + t)[1..];
      DigitsThenDash(a[1..], s, b[1..], t);
      assert a == [a[0]] + a[1..] && b == [b[0]] + b[1..];
    } else if a == "" {
      assert a + s == s;
    }
  }

  lemma NumberThenDash(m: nat, s: string, n: nat, t: string)
    requires Decimal(m) + s == Decimal(n) + t
    requires (s == "" || s[0] == '-') && (t == "" || t[0] == '-')
    ensures m == n && s == t
  {
    DigitsThenDash(Decimal(m), s, Decimal(n), t);
    DecimalValue(m);
    DecimalValue(n);
  }

  // ---------------------------------------------------------------- names

  /** A tail without its dash, and a name without its prefix. */
  lemma TailWithoutDash(e: nat, k: Kind)
    requires e > 0
    ensures Tail(e, k) != "" && Tail(e, k)[1..] == Decimal(e) + Suffix(k)
  {
    assert Tail(e, k) == "-" + (Decimal(e) + Suffix(k));
  }

  lemma NameAfterPrefix(instance: string, a: Slot)
    ensures var prefix := instance + "-router-";
            |prefix| <= |Name(instance, a)|
                && Name(instance, a)[|prefix|..] == Decimal(a.replica) + Tail(a.endpoint, a.kind)
  {
    var prefix := instance + "-router-";
    var rest := Decimal(a.replica) + Tail(a.endpoint, a.kind);
    assert Name(instance, a) == prefix + rest;
    assert (prefix + rest)[|prefix|..] == rest;
  }

  lemma TailInjective(e: nat, k: Kind, f: nat, l: Kind)
    requires Tail(e, k) == Tail(f, l)
    ensures e == f && k == l
  {
    TailSecond(e, k);
    TailSecond(f, l);
    if e > 0 && f > 0 {
      TailWithoutDash(e, k);
      TailWithoutDash(f, l);
      NumberThenDash(e, Suffix(k), f, Suffix(l));
    }
  }

  /** The second character of a tail tells an endpoint number from a type. */
  lemma TailSecond(e: nat, k: Kind)
    ensures e > 0 ==> |Tail(e, k)| > 1 && IsDigit(Tail(e, k)[1])
    ensures e == 0 ==> Tail(e, k) == Suffix(k) && (k.ClusterIP? || |Suffix(k)| > 1)
    ensures e == 0 && k.LoadBalancer? ==> Tail(e, k)[1] == 'l'
    ensures e == 0 && k.NodePort? ==> Tail(e, k)[1] == 'n'
  {
    if e > 0 {
      assert Tail(e, k)[1] == Decimal(e)[0] && Decimal(e)[0] in Decimal(e);
    }
  }

  /** No two slots share a name: neither another replica, nor another endpoint, nor another type. */
  lemma NameInjective(instance: string, a: Slot, b: Slot)
    ensures Name(instance, a) == Name(instance, b) <==> a == b
  {
    if Name(instance, a) == Name(instance, b) {
      NameAfterPrefix(instance, a);
      NameAfterPrefix(instance, b);
      NumberThenDash(a.replica, Tail(a.endpoint, a.kind), b.replica, Tail(b.endpoint, b.kind));
      TailInjective(a.endpoint, a.kind, b.endpoint, b.kind);
    }
  }

  // ---------------------------------------------------------------- names of several instances

  const MIDDLE: string := "-router-"

  /** The part of a name after the instance and `-router-`. */
  function Rest(slot: Slot): string {
    Decimal(slot.replica) + Tail(slot.endpoint, slot.kind)
  }

  lemma NameSplits(instance: string, slot: Slot)
    ensures Name(instance, slot) == instance + MIDDLE + Rest(slot)
  {
    NameAfterPrefix(instance, slot);
    var prefix := instance + MIDDLE;
    assert Name(instance, slot)[..|prefix|] == prefix;
    assert Name(instance, slot) == Name(instance, slot)[..|prefix|] + Name(instance, slot)[|prefix|..];
  }

  /** Numbers, dashes and the suffixes are free of the letter that ends `router`. */
  lemma RestWithoutR(slot: Slot)
    ensures 'r' !in Rest(slot)
  {
    assert 'r' !in Decimal(slot.replica) && 'r' !in Decimal(slot.endpoint);
    assert 'r' !in Suffix(slot.kind);
    assert 'r' !in Tail(slot.endpoint, slot.kind);
  }

  /** So the last `r` of a name tells where the instance ends. */
  lemma SplitAtLastR(a: string, s: string, b: string, t: string)
    requires a + MIDDLE + s == b + MIDDLE + t && 'r' !in s && 'r' !in t
    ensures a == b && s == t
  {
    if |s| < |t| {
      LastR(a, s, b, t);
    } else if |t| < |s| {
      LastR(b, t, a, s);
    }
    assert a == (a + MIDDLE + s)[..|a|] && b == (b + MIDDLE + t)[..|b|];
    assert s == (a + MIDDLE + s)[|a| + |MIDDLE|..] && t == (b + MIDDLE + t)[|b| + |MIDDLE|..];
  }

  lemma LastR(a: string, s: string, b: string, t: string)
    requires 'r' !in t && |s| < |t|
    ensures a + MIDDLE + s != b + MIDDLE + t
  {
    var whole := a + MIDDLE + s;
    assert whole[|a| + 6] == MIDDLE[6] == 'r';
  }

  /** No two services of any instances share a name. */
  lemma NamesOfInstancesDiffer(a: string, x: Slot, b: string, y: Slot)
    ensures Name(a, x) == Name(b, y) <==> a == b && x == y
  {
    if Name(a, x) == Name(b, y) {
      NameSplits(a, x);
      NameSplits(b, y);
      RestWithoutR(x);
      RestWithoutR(y);
      SplitAtLastR(a, Rest(x), b, Rest(y));
      NameInjective(a, x, y);
    }
  }

  lemma RouterNameInjective(instance: string, i: nat, j: nat)
    ensures RouterName(instance, i) == RouterName(instance, j) <==> i == j
  {
    NameInjective(instance, Slot(i, 0, ClusterIP), Slot(j, 0, ClusterIP));
    assert RouterName(instance, i) + "" == RouterName(instance, i);
    assert RouterName(instance, j) + "" == RouterName(instance, j);
  }
}
