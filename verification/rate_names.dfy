// The name of the usergroup a qos_rate block resolves to when it gives neither
// an id nor a name: the two limits spelled out in decimal.

module RateNames {
  import opened Terraform

  // A qos_rate block. An empty id or name is one the block does not give.
  datatype Qos = Qos(id: string, name: string, up: Attr<int>, down: Attr<int>)

  function Digit(d: nat): char
    requires d < 10
  {
    ('0' as int + d) as char
  }

  function Digits(n: nat): string {
    if n < 10 then [Digit(n)] else Digits(n / 10) + [Digit(n % 10)]
  }

  // %d
  function Decimal(n: int): string {
    if n < 0 then "-" + Digits(-n) else Digits(n)
  }

  // qos-up%d-down%d
  function DerivedName(up: int, down: int): string {
    "qos-up" + (Decimal(up) + "-down" + Decimal(down))
  }

  function RateName(q: Qos): string {
    if q.name != "" then q.name else DerivedName(q.up.Or(-1), q.down.Or(-1))
  }

  function Value(s: string): int {
    if s == "" then 0 else Value(s[..|s| - 1]) * 10 + (s[|s| - 1] as int - '0' as int)
  }

  lemma {:induction false} DigitsValue(n: nat)
    ensures Value(Digits(n)) == n && Digits(n) != ""
    ensures forall i :: 0 <= i < |Digits(n)| ==> '0' <= Digits(n)[i] <= '9'
  {
    if n < 10 {
      assert Value([Digit(n)][..0]) == 0;
    } else {
      DigitsValue(n / 10);
      assert (Digits(n / 10) + [Digit(n % 10)])[..|Digits(n / 10)|] == Digits(n / 10);
    }
  }

  lemma DecimalIsInjective(a: int, b: int)
    requires Decimal(a) == Decimal(b)
    ensures a == b
  {
    var m, n := if a < 0 then -a else a, if b < 0 then -b else b;
    DigitsValue(m);
    DigitsValue(n);
    assert Decimal(a)[0] == Decimal(b)[0];
    assert a < 0 ==> Digits(m) == Decimal(a)[1..];
    assert b < 0 ==> Digits(n) == Decimal(b)[1..];
  }

  lemma DecimalHasNoD(n: int, i: nat)
    requires i < |Decimal(n)|
    ensures Decimal(n)[i] != 'd'
  {
    DigitsValue(if n < 0 then -n else n);
  }

  lemma CancelPrefix(p: string, s: string, t: string)
    requires p + s == p + t
    ensures s == t
  {
    assert s == (p + s)[|p|..] && t == (p + t)[|p|..];
  }

  lemma CharAt(x: string, sep: string, y: string, k: nat)
    requires |sep| >= 2 && k <= |x| + 1
    ensures |x + sep + y| > k && (x + sep + y)[k] == if k < |x| then x[k] else sep[k - |x|]
  {
  }

  // A text without the separator's second character ends where that appears.
  lemma SplitIsUnique(x: string, y: string, z: string, w: string, sep: string)
    requires |sep| >= 2 && x + sep + y == z + sep + w && sep[0] != sep[1]
    requires (forall i :: 0 <= i < |x| ==> x[i] != sep[1]) && (forall i :: 0 <= i < |z| ==> z[i] != sep[1])
    ensures x == z && y == w
  {
    var s, t := x + sep + y, z + sep + w;
    var k := (if |x| < |z| then |x| else |z|) + 1;
    CharAt(x, sep, y, k);
    CharAt(z, sep, w, k);
    assert s[..|x|] == x && t[..|z|] == z;
    assert s[|x| + |sep|..] == y && t[|z| + |sep|..] == w;
  }

  // Different limits never share a derived name, over all integers.
  lemma DerivedNameIsInjective(u: int, d: int, v: int, e: int)
    requires DerivedName(u, d) == DerivedName(v, e)
    ensures u == v && d == e
  {
    CancelPrefix("qos-up", Decimal(u) + "-down" + Decimal(d), Decimal(v) + "-down" + Decimal(e));
    forall i | 0 <= i < |Decimal(u)| ensures Decimal(u)[i] != 'd' { DecimalHasNoD(u, i); }
    forall i | 0 <= i < |Decimal(v)| ensures Decimal(v)[i] != 'd' { DecimalHasNoD(v, i); }
    assert "-down"[1] == 'd';
    SplitIsUnique(Decimal(u), Decimal(d), Decimal(v), Decimal(e), "-down");
    DecimalIsInjective(u, v);
    DecimalIsInjective(d, e);
  }

  // A text spells a number in decimal: a sign only when negative, digits, and
  // no leading zero except in 0 itself.
  predicate Spells(s: string, n: int) {
    if n < 0 then |s| > 1 && s[0] == '-' && s[1] != '0' && AllDigits(s[1..]) && Value(s[1..]) == -n
    else s != "" && (s[0] == '0' ==> s == "0") && AllDigits(s) && Value(s) == n
  }

  predicate AllDigits(s: string) {
    forall i :: 0 <= i < |s| ==> '0' <= s[i] <= '9'
  }

  lemma DecimalSpells(n: int)
    ensures Spells(Decimal(n), n)
  {
    DigitsValue(if n < 0 then -n else n);
    NoLeadingZero(if n < 0 then -n else n);
    if n < 0 { assert Decimal(n)[1..] == Digits(-n); }
  }

  lemma {:induction false} NoLeadingZero(n: nat)
    ensures Digits(n) != "" && (Digits(n)[0] == '0' ==> n == 0 && Digits(n) == "0")
  {
    if n >= 10 { NoLeadingZero(n / 10); }
  }

  // A block that gives a name goes by it; another by its limits spelled out, -1
  // standing for one it leaves unset.
  lemma RateNameExactly(q: Qos) returns (up: string, down: string)
    ensures q.name != "" ==> RateName(q) == q.name
    ensures q.name == "" ==> RateName(q) == "qos-up" + up + "-down" + down
    ensures Spells(up, if q.up.Known? then q.up.value else -1)
    ensures Spells(down, if q.down.Known? then q.down.value else -1)
  {
    up, down := Decimal(q.up.Or(-1)), Decimal(q.down.Or(-1));
    DecimalSpells(q.up.Or(-1));
    DecimalSpells(q.down.Or(-1));
    assert "qos-up" + (up + "-down" + down) == "qos-up" + up + "-down" + down;
  }

  // Two blocks without a name share a usergroup name exactly when their limits
  // agree after an absent limit is read as -1.
  lemma RateNameIff(p: Qos, q: Qos)
    requires p.name == "" && q.name == ""
    ensures RateName(p) == RateName(q) <==> p.up.Or(-1) == q.up.Or(-1) && p.down.Or(-1) == q.down.Or(-1)
  {
    if RateName(p) == RateName(q) {
      DerivedNameIsInjective(p.up.Or(-1), p.down.Or(-1), q.up.Or(-1), q.down.Or(-1));
    }
  }
}
