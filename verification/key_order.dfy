/**
 Byte order of store keys, and the zero-padded hexadecimal rendering that the
 audit ids and the metric block ids rely on: for numbers that fit the width,
 the order of the rendered keys is the order of the numbers.
 */
module KeyOrder {

  /** Lexicographic order, the order in which the store keeps its keys. */
  predicate Less(a: string, b: string) {
    if b == [] then false
    else if a == [] then true
    else a[0] < b[0] || (a[0] == b[0] && Less(a[1..], b[1..]))
  }

  lemma {:induction false} LessIrreflexive(a: string)
    ensures !Less(a, a)
  {
    if a != [] {
      LessIrreflexive(a[1..]);
    }
  }

  lemma {:induction false} LessTransitive(a: string, b: string, c: string)
    requires Less(a, b) && Less(b, c)
    ensures Less(a, c)
  {
    if a != [] && a[0] == b[0] && b[0] == c[0] {
      LessTransitive(a[1..], b[1..], c[1..]);
    }
  }

  lemma {:induction false} LessTotal(a: string, b: string)
    ensures a == b || Less(a, b) || Less(b, a)
  {
    if a != [] && b != [] && a[0] == b[0] {
      LessTotal(a[1..], b[1..]);
      assert a == [a[0]] + a[1..] && b == [b[0]] + b[1..];
    }
  }

  lemma LessAsymmetric(a: string, b: string)
    requires Less(a, b)
    ensures !Less(b, a) && a != b
  {
    LessIrreflexive(a);
    if Less(b, a) {
      LessTransitive(a, b, a);
    }
  }

  /** A common prefix does not influence the order. */
  lemma {:induction false} LessCommonPrefix(p: string, a: string, b: string)
    ensures Less(p + a, p + b) <==> Less(a, b)
  {
    if p == [] {
      assert p + a == a && p + b == b;
    } else {
      assert (p + a)[1..] == p[1..] + a && (p + b)[1..] == p[1..] + b;
      LessCommonPrefix(p[1..], a, b);
    }
  }

  /** Between strings of one length the first difference decides, whatever follows. */
  lemma {:induction false} LessExtend(a: string, b: string, x: string, y: string)
    requires |a| == |b| && Less(a, b)
    ensures Less(a + x, b + y)
  {
    assert (a + x)[1..] == a[1..] + x && (b + y)[1..] == b[1..] + y;
    if a[0] == b[0] {
      LessExtend(a[1..], b[1..], x, y);
    }
  }

  /** A longer string sorts after its own proper prefixes. */
  lemma {:induction false} LessProperPrefix(a: string, x: string)
    requires x != []
    ensures Less(a, a + x)
  {
    if a != [] {
      assert (a + x)[1..] == a[1..] + x;
      LessProperPrefix(a[1..], x);
    }
  }

  lemma LessSingle(c: char, d: char)
    ensures Less([c], [d]) <==> c < d
  {
  }

  const HEX_DIGITS := "0123456789abcdef"

  function Pow16(w: nat): (r: nat)
    ensures r >= 1
  {
    if w == 0 then 1 else 16 * Pow16(w - 1)
  }

  /**
   fmt.Sprintf("%0*x", w, n): at least w hexadecimal digits, most significant
   first. A number too large for the width is rendered wider, never cut.
   */
  function Hex(w: nat, n: nat): (s: string)
    decreases n, w
  {
    (if n < 16 && w <= 1 then "" else Hex(if w == 0 then 0 else w - 1, n / 16)) + [HEX_DIGITS[n % 16]]
  }

  lemma {:induction false} HexLength(w: nat, n: nat)
    requires w >= 1 && n < Pow16(w)
    ensures |Hex(w, n)| == w
    decreases w
  {
    if w > 1 {
      HexLength(w - 1, n / 16);
    }
  }

  lemma HexDigitOrder(d: nat, e: nat)
    requires d < 16 && e < 16
    ensures HEX_DIGITS[d] < HEX_DIGITS[e] <==> d < e
  {
    assert HEX_DIGITS[d] as int == if d < 10 then 48 + d else 87 + d;
    assert HEX_DIGITS[e] as int == if e < 10 then 48 + e else 87 + e;
  }

  lemma HexUnfold(w: nat, n: nat)
    requires w >= 1 && n < Pow16(w)
    ensures w == 1 ==> n < 16 && Hex(w, n) == [HEX_DIGITS[n % 16]]
    ensures w > 1 ==> n / 16 < Pow16(w - 1) && Hex(w, n) == Hex(w - 1, n / 16) + [HEX_DIGITS[n % 16]]
  {
  }

  lemma {:induction false} HexIncreasing(w: nat, a: nat, b: nat)
    requires w >= 1 && a < b < Pow16(w)
    ensures Less(Hex(w, a), Hex(w, b))
    decreases w
  {
    hide Less, Hex, Pow16;
    var x, y := HEX_DIGITS[a % 16], HEX_DIGITS[b % 16];
    HexDigitOrder(a % 16, b % 16);
    LessSingle(x, y);
    HexUnfold(w, a);
    HexUnfold(w, b);
    if w > 1 {
      var p, q := Hex(w - 1, a / 16), Hex(w - 1, b / 16);
      HexLength(w - 1, a / 16);
      HexLength(w - 1, b / 16);
      if a / 16 < b / 16 {
        HexIncreasing(w - 1, a / 16, b / 16);
        LessExtend(p, q, [x], [y]);
      } else {
        LessCommonPrefix(p, [x], [y]);
      }
    }
  }

  /** Numbers that fit the width sort, as keys, exactly as they sort as numbers. */
  lemma HexOrder(w: nat, a: nat, b: nat)
    requires w >= 1 && a < Pow16(w) && b < Pow16(w)
    ensures Less(Hex(w, a), Hex(w, b)) <==> a < b
    ensures Hex(w, a) == Hex(w, b) <==> a == b
  {
    LessIrreflexive(Hex(w, a));
    if a < b {
      HexIncreasing(w, a, b);
      LessAsymmetric(Hex(w, a), Hex(w, b));
    } else if b < a {
      HexIncreasing(w, b, a);
      LessAsymmetric(Hex(w, b), Hex(w, a));
    }
  }
}
