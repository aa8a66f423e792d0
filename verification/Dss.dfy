/** The digital signature standard: signing, verifying, and why what is signed is accepted. */
module Dss {
  import opened Words
  import opened LongMult
  import opened Bignums
  import opened FastMult
  import opened Congruence
  import opened Modulo
  import opened Montgomery
  import opened ModularPower
  import Shifts

  /** The remainder as the division leaves it: the modulus itself for the modulus shifted up by words. */
  ghost function Rem(a: nat, m: nat): nat
    requires 0 < m
  {
    if WordMultiple(a, m) then m else a % m
  }

  lemma RemIs(x: nat, a: nat, m: nat)
    requires 0 < m && x <= m && Cong(x, a, m) && (x == m <==> WordMultiple(a, m))
    ensures x == Rem(a, m)
  {
    if x < m { LeastRemainder(x, a, m); CongMod(x, a, m); Shifts.Divided(x, m, 0, x); }
  }

  lemma RemCong(a: nat, m: nat)
    requires 0 < m
    ensures Cong(Rem(a, m), a, m) && Rem(a, m) <= m
  {
    if WordMultiple(a, m) {
      var j: nat :| a == Scaled(m, j);
      CongIs(m, a, m, 1 - Pow(j));
      assert a + (1 - Pow(j)) * m == m by { MulDist(m, 1, -(Pow(j) as int)); }
    } else {
      CongMod(a % m, a, m);
      Shifts.Divided(a % m, m, 0, a % m);
    }
  }

  // ----- the equations of a signature

  /** r and s for digest md: the secret x, the nonce k with its inverse, the base g. */
  ghost predicate Signed(r: nat, s: nat, md: nat, x: nat, k: nat, kinv: nat, g: nat, p: nat, q: nat)
    requires 0 < p && 0 < q
  {
    r == Rem(Pick(g, k, p), q) && s == Rem(kinv * (md + x * r), q)
  }

  /** The least power of the base. */
  ghost function Pick(g: nat, e: nat, p: nat): (v: nat)
    requires 0 < p
    ensures v < p
  {
    Exp(g, e) % p
  }

  /** An exponent of the verifier. */
  ghost function Share(a: nat, w: nat, q: nat): nat
    requires 0 < q
  {
    Rem(a * w, q)
  }

  /** The product of two powers, by p and then by q. */
  ghost function Combined(a: nat, b: nat, p: nat, q: nat): nat
    requires 0 < p && 0 < q
  {
    Rem(Rem(a * b, p), q)
  }

  /** What a verifier with the inverse w of s compares with r. */
  ghost function Verifies(md: nat, r: nat, w: nat, g: nat, y: nat, p: nat, q: nat): nat
    requires 0 < p && 0 < q
  {
    Combined(Pick(g, Share(md, w, q), p), Pick(y, Share(r, w, q), p), p, q)
  }

  lemma PickCong(g: nat, e: nat, p: nat)
    requires 0 < p
    ensures Cong(Pick(g, e, p), Exp(g, e), p)
  {
    Shifts.Divided(Exp(g, e) % p, p, 0, Exp(g, e) % p);
    CongMod(Exp(g, e) % p, Exp(g, e), p);
  }

  /** Powers of a base of order q depend on the exponent modulo q only. */
  lemma OrderPowers(g: int, a: nat, b: nat, p: int, q: nat)
    requires Cong(Exp(g, q), 1, p) && Cong(a, b, q) && a <= b
    ensures Cong(Exp(g, a), Exp(g, b), p)
  {
    CongSym(a, b, q);
    var k :| CongBy(b, a, q, k);
    if k < 0 { MulLess(k, -1, q); assert a == b; CongRefl(Exp(g, a), p); }
    else {
      CongExp(Exp(g, q), 1, k, p);
      ExpTimes(g, q, k);
      OnePower(k);
      ExpAdd(g, a, k * q);
      CongRefl(Exp(g, a), p);
      CongMul(Exp(g, a), Exp(g, a), Exp(g, k * q), 1, p);
      CongSym(Exp(g, b), Exp(g, a), p);
    }
  }

  lemma {:induction false} OnePower(k: nat)
    ensures Exp(1, k) == 1
  {
    if k > 0 { OnePower(k - 1); }
  }

  /** The exponents of the verifier add up to the nonce. */
  lemma ExponentsMeet(md: nat, r: nat, s: nat, x: nat, k: nat, kinv: nat, w: nat, u1: nat, u2: nat, q: nat)
    requires Cong(s, kinv * (md + x * r), q) && Cong(k * kinv, 1, q) && Cong(s * w, 1, q)
    requires Cong(u1, md * w, q) && Cong(u2, r * w, q)
    ensures Cong(u1 + x * u2, k, q)
  {
    var h := md + x * r;
    CongRefl(x, q);
    CongMul(x, x, u2, r * w, q);
    CongAdd(u1, md * w, x * u2, x * (r * w), q);
    assert md * w + x * (r * w) == h * w by { MulDist(w, md, x * r); MulAssoc(x, r, w); }
    CongRefl(k, q);
    CongMul(k, k, s, kinv * h, q);
    CongRefl(h, q);
    CongMul(k * kinv, 1, h, h, q);
    MulAssoc(k, kinv, h);
    CongTrans(k * s, k * (kinv * h), h, q);
    CongRefl(w, q);
    CongMul(k * s, h, w, w, q);
    CongMul(k, k, s * w, 1, q);
    MulAssoc(k, s, w);
    CongSym(k * s * w, h * w, q);
    CongTrans(h * w, k * s * w, k, q);
    CongTrans(u1 + x * u2, h * w, k, q);
  }

  /** A unit to any power is no multiple of the modulus. */
  lemma UnitPower(g: int, e: nat, p: int, q: nat)
    requires Cong(Exp(g, q), 1, p) && 1 < p && 0 < q
    ensures !Cong(Exp(g, e), 0, p) && !Cong(g, 0, p)
  {
    if Cong(g, 0, p) {
      CongExp(g, 0, q, p);
      assert Exp(0, q) == 0 * Exp(0, q - 1);
      CongSym(Exp(g, q), 1, p);
      CongTrans(1, Exp(g, q), 0, p);
      NotOne(p);
    }
    if Cong(Exp(g, e), 0, p) {
      ExpTimes(g, q, e);
      ExpTimes(g, e, q);
      CongExp(Exp(g, q), 1, e, p);
      OnePower(e);
      CongExp(Exp(g, e), 0, q, p);
      assert Exp(0, q) == 0 * Exp(0, q - 1);
      assert e * q == q * e;
      CongSym(Exp(g, e * q), 1, p);
      CongTrans(1, Exp(g, e * q), 0, p);
      NotOne(p);
    }
  }

  lemma NotOne(p: int)
    requires 1 < p
    ensures !Cong(1, 0, p)
  {
    CongMod(1, 0, p);
  }

  /**
   What is signed is accepted, when the base has order dividing q, the public key is the power
   of the base to the secret, and both inverses are right.
   */
  lemma SignedIsAccepted(md: nat, r: nat, s: nat, x: nat, k: nat, kinv: nat, w: nat, g: nat, y: nat, p: nat, q: nat)
    requires 1 < p && 0 < q && Signed(r, s, md, x, k, kinv, g, p, q)
    requires Cong(Exp(g, q), 1, p) && Cong(y, Exp(g, x), p) && Cong(k * kinv, 1, q) && Cong(s * w, 1, q)
    ensures Verifies(md, r, w, g, y, p, q) == r
  {
    hide Rem, Exp, Cong, WordMultiple, Pick;
    var u1, u2 := Rem(md * w, q), Rem(r * w, q);
    RemCong(md * w, q);
    RemCong(r * w, q);
    RemCong(kinv * (md + x * r), q);
    ExponentsMeet(md, r, s, x, k, kinv, w, u1, u2, q);
    ProductIsPower(g, y, x, u1, u2, k, p, q);
    UnitPower(g, k, p, q);
    LeastOfPower(Pick(g, u1, p) * Pick(y, u2, p), g, k, p);
  }

  lemma LeastOfPower(t: nat, g: nat, k: nat, p: nat)
    requires 1 < p && Cong(t, Exp(g, k), p) && !Cong(Exp(g, k), 0, p)
    ensures Rem(t, p) == Pick(g, k, p)
  {
    hide Rem, Exp, Cong, WordMultiple;
    RemCong(t, p);
    SameRest(Rem(t, p), t, Pick(g, k, p), Exp(g, k), p);
  }

  lemma ProductIsPower(g: nat, y: nat, x: nat, u1: nat, u2: nat, k: nat, p: nat, q: nat)
    requires 0 < p && Cong(Exp(g, q), 1, p) && Cong(y, Exp(g, x), p) && Cong(u1 + x * u2, k, q)
    ensures Cong(Pick(g, u1, p) * Pick(y, u2, p), Exp(g, k), p)
  {
    hide Exp, Pick;
    PickCong(g, u1, p);
    PickCong(y, u2, p);
    CongExp(y, Exp(g, x), u2, p);
    ExpTimes(g, x, u2);
    CongTrans(Pick(y, u2, p), Exp(y, u2), Exp(g, u2 * x), p);
    CongMul(Pick(g, u1, p), Exp(g, u1), Pick(y, u2, p), Exp(g, u2 * x), p);
    ExpAdd(g, u1, u2 * x);
    var e := u1 + u2 * x;
    if e <= k {
      OrderPowers(g, e, k, p, q);
    } else {
      CongSym(e, k, q);
      OrderPowers(g, k, e, p, q);
      CongSym(Exp(g, k), Exp(g, e), p);
    }
    CongTrans(Pick(g, u1, p) * Pick(y, u2, p), Exp(g, e), Exp(g, k), p);
  }

  /** A remainder of what is no multiple of the modulus is the least one. */
  lemma SameRest(z: nat, t: nat, v: nat, u: int, p: nat)
    requires 0 < p && z <= p && Cong(z, t, p) && Cong(t, u, p) && v == u % p && !Cong(u, 0, p)
    ensures z == v
  {
    CongTrans(z, t, u, p);
    LeastRemainder(z, u, p);
    if u % p == 0 { CongMod(u, 0, p); Shifts.Divided(0, p, 0, 0); }
  }

  // ----- the operations

  /** The number v, not negative, in its shortest form. */
  ghost predicate Is(a: Bignum, v: nat)
    reads a, a.num
  {
    a.Valid() && a.Trimmed() && a.sign == 1 && a.Mag() == v
  }

  /** A modulus of two words or more, of value v. */
  ghost predicate Divisor(m: Bignum, v: nat)
    reads m, m.num
  {
    Is(m, v) && 2 <= m.length && 0 < v
  }

  /** An odd modulus of two words or more, of value v. */
  ghost predicate OddDivisor(m: Bignum, v: nat)
    reads m, m.num
  {
    Divisor(m, v) && v % 2 == 1
  }

  /** A new number: the product of a and b. */
  method Times(a: Bignum, b: Bignum, ghost av: nat, ghost bv: nat) returns (c: Bignum)
    requires Is(a, av) && Is(b, bv) && Apart(a, b)
    modifies a`length
    ensures Is(a, av) && fresh(c) && fresh(c.num) && Is(c, av * bv)
  {
    hide Val, Pow;
    c := new Bignum(0);
    BigMultiply(a, b, c);
  }

  /** A new number: the sum of a and b. */
  method Plus(a: Bignum, b: Bignum, ghost av: nat, ghost bv: nat) returns (c: Bignum)
    requires Is(a, av) && Is(b, bv) && Apart(a, b)
    modifies a`length, b`length
    ensures Is(a, av) && Is(b, bv) && fresh(c) && fresh(c.num) && Is(c, av + bv)
  {
    hide Val, Pow;
    c := new Bignum(0);
    BigAdd(a, b, c, 0);
  }

  /** Reduces a in place. */
  method Reduce(a: Bignum, m: Bignum, ghost av: nat, ghost mv: nat)
    requires Is(a, av) && Divisor(m, mv) && Apart(a, m)
    modifies a, a.num, m, m.num
    ensures (a.num == old(a.num) || fresh(a.num)) && (m.num == old(m.num) || fresh(m.num)) && Apart(a, m) && Divisor(m, mv)
    ensures Is(a, Rem(av, mv))
  {
    hide Val, Pow, Cong, WordMultiple, Rem;
    BigMod(a, m, a);
    RemIs(a.Mag(), av, mv);
  }

  /** A new number: the product of a and b, reduced by m. */
  method ModProduct(a: Bignum, b: Bignum, m: Bignum, ghost av: nat, ghost bv: nat, ghost mv: nat) returns (c: Bignum)
    requires Is(a, av) && Is(b, bv) && Divisor(m, mv) && Apart(a, b) && Apart(a, m) && Apart(b, m)
    modifies m, m.num, a`length
    ensures (m.num == old(m.num) || fresh(m.num)) && Divisor(m, mv) && Is(a, av)
    ensures fresh(c) && fresh(c.num) && Apart(c, m) && Is(c, Rem(av * bv, mv))
  {
    hide Is, Divisor, Rem;
    c := Times(a, b, av, bv);
    Reduce(c, m, av * bv, mv);
  }

  /** No carry is lost on the way to g^e modulo p. */
  ghost predicate CarriesKept(g: nat, e: nat, p: nat) {
    Secure(g, e, p, WordCount(p))
  }

  /** z is what the exponentiation makes of g^e modulo p. */
  ghost predicate IsPower(z: nat, g: nat, e: nat, p: nat) {
    CarriesKept(g, e, p) ==> z <= p && (e != 0 || !Cong(g, 0, p) ==> Cong(z, Exp(g, e), p))
  }

  /** A new number: a power of the base. */
  method Power(g: Bignum, e: Bignum, p: Bignum, ghost gv: nat, ghost ev: nat, ghost pv: nat) returns (v: Bignum, ghost z: nat)
    requires Is(g, gv) && Is(e, ev) && OddDivisor(p, pv) && Apart(g, p) && Apart(e, p)
    modifies p, p.num, g`length
    ensures OddDivisor(p, pv) && (p.num == old(p.num) || fresh(p.num)) && Is(g, gv)
    ensures fresh(v) && fresh(v.num) && Apart(v, p) && Is(v, z) && IsPower(z, gv, ev, pv)
  {
    hide Val, Pow, Cong, Exp, Secure;
    LengthIsWords(p);
    v := new Bignum(0);
    BigPow(g, e, p, v);
    z := v.Mag();
    NonZero(p);
  }

  /** The power is the least one, if it is no multiple of the modulus. */
  lemma LeastPower(z: nat, g: nat, e: nat, p: nat)
    requires 0 < p && IsPower(z, g, e, p) && CarriesKept(g, e, p) && !Cong(g, 0, p) && !Cong(Exp(g, e), 0, p)
    ensures z == Pick(g, e, p)
  {
    hide Cong, Exp, Secure;
    LeastRemainder(z, Exp(g, e), p);
    NotMultipleOf(Exp(g, e), p);
  }

  lemma NotMultipleOf(u: int, p: nat)
    requires 0 < p
    ensures !Cong(u, 0, p) ==> u % p != 0
  {
    CongMod(u, 0, p);
    Shifts.Divided(0, p, 0, 0);
  }

  /** The base has an order that divides q, so that no power of it is a multiple of p. */
  ghost predicate HasOrder(g: nat, p: nat, q: nat) {
    1 < p && 0 < q && Cong(Exp(g, q), 1, p)
  }

  lemma OrderUnit(g: nat, e: nat, p: nat, q: nat)
    requires HasOrder(g, p, q)
    ensures !Cong(Exp(g, e), 0, p) && !Cong(g, 0, p)
  {
    UnitPower(g, e, p, q);
  }

  /** No power of the public key is a multiple of p. */
  lemma KeyUnit(g: nat, y: nat, x: nat, e: nat, p: nat, q: nat)
    requires HasOrder(g, p, q) && Cong(y, Exp(g, x), p)
    ensures !Cong(Exp(y, e), 0, p) && !Cong(y, 0, p)
  {
    hide Exp;
    CongExp(y, Exp(g, x), e, p);
    ExpTimes(g, x, e);
    UnitPower(g, e * x, p, q);
    UnitPower(g, x, p, q);
    CongSym(Exp(y, e), Exp(g, e * x), p);
    CongSym(y, Exp(g, x), p);
    if Cong(Exp(y, e), 0, p) { CongTrans(Exp(g, e * x), Exp(y, e), 0, p); }
    if Cong(y, 0, p) { CongTrans(Exp(g, x), y, 0, p); }
  }

  /** The values of a key: the modulus, the order, the base, the secret and the public power. */
  datatype Key = Key(p: nat, q: nat, g: nat, x: nat, y: nat)

  /** The base has order q, and the public number is its power to the secret. */
  ghost predicate GoodKey(key: Key) {
    HasOrder(key.g, key.p, key.q) && Cong(key.y, Exp(key.g, key.x), key.p)
  }

  ghost function FirstHalf(key: Key, k: nat): nat
    requires 0 < key.p && 0 < key.q
  {
    Rem(Pick(key.g, k, key.p), key.q)
  }

  ghost function SecondHalf(key: Key, md: nat, r: nat, kinv: nat): nat
    requires 0 < key.q
  {
    Rem(kinv * (md + key.x * r), key.q)
  }

  /** What a verifier with the inverse w of s compares with r. */
  ghost function Recovered(key: Key, md: nat, r: nat, w: nat): nat
    requires 0 < key.p && 0 < key.q
  {
    Verifies(md, r, w, key.g, key.y, key.p, key.q)
  }

  /**
   A signature (r, s) of digest md, with a nonce k whose inverse is given. The key, the digest
   and the nonce have the values given for them; z is the power of the base the exponentiation
   gives.
   */
  method DssSign(md: Bignum, k: Bignum, kinverse: Bignum, p: Bignum, q: Bignum, alpha: Bignum, secret: Bignum,
                 ghost key: Key, ghost mdv: nat, ghost kv: nat, ghost kinv: nat)
    returns (r: Bignum, s: Bignum, ghost z: nat)
    requires OddDivisor(p, key.p) && Divisor(q, key.q) && Is(alpha, key.g) && Is(secret, key.x)
    requires Is(md, mdv) && Is(k, kv) && Is(kinverse, kinv)
    requires AllApart([md, k, kinverse, p, q, alpha, secret])
    modifies p, p.num, q, q.num, alpha`length, secret`length, kinverse`length, md`length
    ensures OddDivisor(p, key.p) && Divisor(q, key.q) && fresh(r) && fresh(s)
    ensures IsPower(z, key.g, kv, key.p) && Is(r, Rem(z, key.q)) && Is(s, SecondHalf(key, mdv, Rem(z, key.q), kinv))
    ensures GoodKey(key) && CarriesKept(key.g, kv, key.p) ==> Rem(z, key.q) == FirstHalf(key, kv)
  {
    hide Val, Pow, Is, Divisor, GoodKey, SecondHalf, FirstHalf, AllApart, IsPower, CarriesKept, Rem;
    SignApart(md, k, kinverse, p, q, alpha, secret);
    KeyPositive(p, q, key);
    r, z := SignPower(k, p, q, alpha, key, kv);
    s := SignDigest(md, r, kinverse, q, secret, key, mdv, Rem(z, key.q), kinv);
    if GoodKey(key) && CarriesKept(key.g, kv, key.p) { GoodFirst(z, key, kv); }
  }

  lemma KeyPositive(p: Bignum, q: Bignum, key: Key)
    requires OddDivisor(p, key.p) && Divisor(q, key.q)
    ensures 0 < key.p && 0 < key.q
  {
  }

  lemma GoodFirst(z: nat, key: Key, k: nat)
    requires GoodKey(key) && CarriesKept(key.g, k, key.p) && IsPower(z, key.g, k, key.p)
    ensures Rem(z, key.q) == FirstHalf(key, k)
  {
    hide Rem, Exp, Cong, CarriesKept, IsPower, Pick;
    OrderUnit(key.g, k, key.p, key.q);
    LeastPower(z, key.g, k, key.p);
  }

  predicate AllApart(a: seq<Bignum>)
    reads a
  {
    forall i, j :: 0 <= i < j < |a| ==> Apart(a[i], a[j])
  }

  lemma SignApart(md: Bignum, k: Bignum, kinverse: Bignum, p: Bignum, q: Bignum, alpha: Bignum, secret: Bignum)
    requires AllApart([md, k, kinverse, p, q, alpha, secret])
    ensures Apart(md, p) && Apart(md, q) && Apart(md, kinverse) && Apart(md, secret) && Apart(md, alpha)
    ensures Apart(k, p) && Apart(k, q) && Apart(k, alpha) && Apart(kinverse, p) && Apart(kinverse, q) && Apart(kinverse, alpha) && Apart(kinverse, secret)
    ensures Apart(p, q) && Apart(p, alpha) && Apart(p, secret) && Apart(q, alpha) && Apart(q, secret) && Apart(alpha, secret)
  {
    var a := [md, k, kinverse, p, q, alpha, secret];
    assert Apart(a[0], a[2]) && Apart(a[0], a[3]) && Apart(a[0], a[4]) && Apart(a[0], a[5]) && Apart(a[0], a[6]);
    assert Apart(a[1], a[3]) && Apart(a[1], a[4]) && Apart(a[1], a[5]);
    assert Apart(a[2], a[3]) && Apart(a[2], a[4]) && Apart(a[2], a[5]) && Apart(a[2], a[6]);
    assert Apart(a[3], a[4]) && Apart(a[3], a[5]) && Apart(a[3], a[6]) && Apart(a[4], a[5]) && Apart(a[4], a[6]) && Apart(a[5], a[6]);
  }

  /** r: the power of the base to the nonce, by p and then by q. */
  method SignPower(k: Bignum, p: Bignum, q: Bignum, alpha: Bignum, ghost key: Key, ghost kv: nat) returns (r: Bignum, ghost z: nat)
    requires OddDivisor(p, key.p) && Divisor(q, key.q) && Is(alpha, key.g) && Is(k, kv) && 0 < key.q
    requires Apart(k, p) && Apart(alpha, p) && Apart(alpha, q) && Apart(k, alpha) && Apart(p, q)
    modifies p, p.num, q, q.num, alpha`length
    ensures OddDivisor(p, key.p) && Divisor(q, key.q)
    ensures (p.num == old(p.num) || fresh(p.num)) && (q.num == old(q.num) || fresh(q.num)) && Apart(r, q) && Apart(p, q)
    ensures fresh(r) && fresh(r.num) && IsPower(z, key.g, kv, key.p) && Is(r, Rem(z, key.q))
  {
    hide Val, Pow, Rem, Is, Divisor, IsPower;
    r, z := Power(alpha, k, p, key.g, kv, key.p);
    Reduce(r, q, z, key.q);
  }

  /** s: the digest and the secret times r, times the inverse of the nonce, by q. */
  method SignDigest(md: Bignum, r: Bignum, kinverse: Bignum, q: Bignum, secret: Bignum, ghost key: Key, ghost mdv: nat, ghost rv: nat, ghost kinv: nat)
    returns (s: Bignum)
    requires 0 < key.q && Is(md, mdv) && Is(r, rv) && Is(kinverse, kinv) && Is(secret, key.x) && Divisor(q, key.q)
    requires Apart(md, q) && Apart(r, q) && Apart(kinverse, q) && Apart(secret, q) && Apart(secret, r)
    requires Apart(md, kinverse) && Apart(md, secret) && Apart(kinverse, secret)
    modifies q, q.num, secret`length, kinverse`length, md`length
    ensures Divisor(q, key.q) && fresh(s) && fresh(s.num) && Is(s, SecondHalf(key, mdv, rv, kinv))
  {
    hide Val, Pow, Rem, Is, Divisor;
    var xr := Times(secret, r, key.x, rv);
    var tmp := Plus(md, xr, mdv, key.x * rv);
    s := ModProduct(kinverse, tmp, q, kinv, mdv + key.x * rv, key.q);
  }

  /**
   Whether r and s, with the inverse w of s given, is taken for a signature of digest md; a and b
   are the powers of the base and of the public key the exponentiation gives.
   */
  method DssVerify(md: Bignum, r: Bignum, w: Bignum, p: Bignum, q: Bignum, g: Bignum, y: Bignum,
                   ghost key: Key, ghost mdv: nat, ghost rv: nat, ghost wv: nat)
    returns (ok: bool, ghost a: nat, ghost b: nat)
    requires OddDivisor(p, key.p) && Divisor(q, key.q) && Is(g, key.g) && Is(y, key.y)
    requires Is(md, mdv) && Is(r, rv) && Is(w, wv)
    requires AllApart([md, r, w, p, q, g, y])
    modifies p, p.num, q, q.num, md`length, r`length, g`length, y`length
    ensures OddDivisor(p, key.p) && Divisor(q, key.q)
    ensures IsPower(a, key.g, Share(mdv, wv, key.q), key.p) && IsPower(b, key.y, Share(rv, wv, key.q), key.p)
    ensures ok <==> rv == Combined(a, b, key.p, key.q)
    ensures GoodKey(key) && CarriesKept(key.g, Share(mdv, wv, key.q), key.p) && CarriesKept(key.y, Share(rv, wv, key.q), key.p) ==>
              (ok <==> rv == Recovered(key, mdv, rv, wv))
  {
    hide Val, Pow, Rem, Is, Divisor, AllApart, IsPower, CarriesKept, GoodKey, Recovered, Combined;
    VerifyApart(md, r, w, p, q, g, y);
    KeyPositive(p, q, key);
    var u1 := ModProduct(md, w, q, mdv, wv, key.q);
    var u2 := ModProduct(r, w, q, rv, wv, key.q);
    var v: Bignum;
    v, a, b := VerifyPower(u1, u2, p, q, g, y, key, Share(mdv, wv, key.q), Share(rv, wv, key.q));
    ok := Matches(r, v, rv, Combined(a, b, key.p, key.q));
    if GoodKey(key) && CarriesKept(key.g, Share(mdv, wv, key.q), key.p) && CarriesKept(key.y, Share(rv, wv, key.q), key.p) {
      GoodRecovered(a, b, key, mdv, rv, wv);
    }
  }

  lemma GoodRecovered(a: nat, b: nat, key: Key, md: nat, r: nat, w: nat)
    requires GoodKey(key) && CarriesKept(key.g, Share(md, w, key.q), key.p) && CarriesKept(key.y, Share(r, w, key.q), key.p)
    requires IsPower(a, key.g, Share(md, w, key.q), key.p) && IsPower(b, key.y, Share(r, w, key.q), key.p)
    ensures Combined(a, b, key.p, key.q) == Recovered(key, md, r, w)
  {
    hide Rem, Exp, Cong, CarriesKept, IsPower, Pick, Combined;
    OrderUnit(key.g, Share(md, w, key.q), key.p, key.q);
    KeyUnit(key.g, key.y, key.x, Share(r, w, key.q), key.p, key.q);
    LeastPower(a, key.g, Share(md, w, key.q), key.p);
    LeastPower(b, key.y, Share(r, w, key.q), key.p);
  }

  method Matches(r: Bignum, v: Bignum, ghost rv: nat, ghost vv: nat) returns (ok: bool)
    requires Is(r, rv) && Is(v, vv)
    modifies r`length, v`length
    ensures ok <==> rv == vv
  {
    hide Val, Pow;
    var c := BigCompare(r, v, 0);
    ok := c == 0;
  }

  lemma VerifyApart(md: Bignum, r: Bignum, w: Bignum, p: Bignum, q: Bignum, g: Bignum, y: Bignum)
    requires AllApart([md, r, w, p, q, g, y])
    ensures Apart(md, r) && Apart(md, w) && Apart(md, p) && Apart(md, q) && Apart(md, g) && Apart(md, y)
    ensures Apart(r, w) && Apart(r, p) && Apart(r, q) && Apart(r, g) && Apart(r, y) && Apart(w, p) && Apart(w, q)
    ensures Apart(p, q) && Apart(p, g) && Apart(p, y) && Apart(q, g) && Apart(q, y) && Apart(g, y)
  {
    var a := [md, r, w, p, q, g, y];
    assert Apart(a[0], a[1]) && Apart(a[0], a[2]) && Apart(a[0], a[3]) && Apart(a[0], a[4]) && Apart(a[0], a[5]) && Apart(a[0], a[6]);
    assert Apart(a[1], a[2]) && Apart(a[1], a[3]) && Apart(a[1], a[4]) && Apart(a[1], a[5]) && Apart(a[1], a[6]) && Apart(a[2], a[3]) && Apart(a[2], a[4]);
    assert Apart(a[3], a[4]) && Apart(a[3], a[5]) && Apart(a[3], a[6]) && Apart(a[4], a[5]) && Apart(a[4], a[6]) && Apart(a[5], a[6]);
  }

  /** The product of both powers, by p and then by q. */
  method VerifyPower(u1: Bignum, u2: Bignum, p: Bignum, q: Bignum, g: Bignum, y: Bignum, ghost key: Key, ghost i: nat, ghost j: nat)
    returns (v: Bignum, ghost a: nat, ghost b: nat)
    requires OddDivisor(p, key.p) && Divisor(q, key.q) && Is(g, key.g) && Is(y, key.y) && Is(u1, i) && Is(u2, j) && 0 < key.p && 0 < key.q
    requires Apart(u1, p) && Apart(u2, p) && Apart(p, q) && Apart(g, p) && Apart(y, p) && Apart(g, q) && Apart(y, q) && Apart(g, y)
    requires Apart(u1, g) && Apart(u2, g) && Apart(u2, y)
    modifies p, p.num, q, q.num, g`length, y`length
    ensures OddDivisor(p, key.p) && Divisor(q, key.q)
    ensures IsPower(a, key.g, i, key.p) && IsPower(b, key.y, j, key.p)
    ensures fresh(v) && fresh(v.num) && Is(v, Combined(a, b, key.p, key.q))
  {
    hide Val, Pow, Rem, Is, Divisor, IsPower;
    var tmp1: Bignum;
    var tmp2: Bignum;
    tmp1, a := Power(g, u1, p, key.g, i, key.p);
    tmp2, b := Power(y, u2, p, key.y, j, key.p);
    v := ModProduct(tmp1, tmp2, p, a, b, key.p);
    Reduce(v, q, Rem(a * b, key.p), key.q);
  }

  /** Every signature made with a good key is accepted, whatever the digest and the nonce. */
  lemma SignaturesVerify(key: Key, md: nat, k: nat, kinv: nat, w: nat)
    requires GoodKey(key) && Cong(k * kinv, 1, key.q)
    requires Cong(SecondHalf(key, md, FirstHalf(key, k), kinv) * w, 1, key.q)
    ensures Recovered(key, md, FirstHalf(key, k), w) == FirstHalf(key, k)
  {
    hide Exp, Cong, Rem, Verifies;
    var r := FirstHalf(key, k);
    SignedIsAccepted(md, r, SecondHalf(key, md, r, kinv), key.x, k, kinv, w, key.g, key.y, key.p, key.q);
  }
}
