/**
 Version ordering: Semantic Versioning 2.0.0, section 11, on versions with a
 leading v, in the short forms v1 and v1.2 too, below a release revision "-rN"
 that makes a version newer instead of older.
 */
module SemVer {
  import opened Common
  import opened KeyOrder
  import opened BlockCodec

  // ---- Strings ----

  predicate Digit(c: char) {
    '0' <= c <= '9'
  }

  predicate AllDigits(s: string) {
    forall i :: 0 <= i < |s| ==> Digit(s[i])
  }

  predicate IdentChar(c: char) {
    Digit(c) || 'A' <= c <= 'Z' || 'a' <= c <= 'z' || c == '-'
  }

  function Decimal(s: string): nat
    requires AllDigits(s)
  {
    if s == [] then 0 else 10 * Decimal(s[..|s| - 1]) + (s[|s| - 1] as int - '0' as int)
  }

  /** The position of the first occurrence, or the length. */
  function IndexOf(s: string, c: char): (i: nat)
    ensures i <= |s| && (i < |s| ==> s[i] == c)
    ensures forall j :: 0 <= j < i ==> s[j] != c
  {
    if s == [] || s[0] == c then 0 else 1 + IndexOf(s[1..], c)
  }

  function Split(s: string, c: char): (parts: seq<string>)
    ensures parts != []
    decreases |s|
  {
    var i := IndexOf(s, c);
    if i == |s| then [s] else [s[..i]] + Split(s[i + 1..], c)
  }

  // ---- Section 11 ----

  datatype Ident = Num(n: nat) | Alnum(s: string)

  /** pre empty: a release. Build metadata does not take part in the order. */
  datatype Version = Version(major: nat, minor: nat, patch: nat, pre: seq<Ident>)

  function CompareInt(a: int, b: int): int {
    if a < b then -1 else if a > b then 1 else 0
  }

  function CompareString(a: string, b: string): int {
    if a == b then 0 else if Less(a, b) then -1 else 1
  }

  /** The first comparison that is not a tie decides. */
  function Then(first: int, second: int): int {
    if first != 0 then first else second
  }

  function CompareIdent(a: Ident, b: Ident): int {
    match (a, b)
    case (Num(m), Num(n)) => CompareInt(m, n)
    case (Num(_), Alnum(_)) => -1
    case (Alnum(_), Num(_)) => 1
    case (Alnum(s), Alnum(t)) => CompareString(s, t)
  }

  function CompareIdents(a: seq<Ident>, b: seq<Ident>): int {
    if a == [] then if b == [] then 0 else -1
    else if b == [] then 1
    else Then(CompareIdent(a[0], b[0]), CompareIdents(a[1..], b[1..]))
  }

  /** A pre-release comes before its release. */
  function ComparePre(a: seq<Ident>, b: seq<Ident>): int {
    if a == [] then if b == [] then 0 else 1
    else if b == [] then -1
    else CompareIdents(a, b)
  }

  function CompareVersion(a: Version, b: Version): int {
    Then(CompareInt(a.major, b.major),
         Then(CompareInt(a.minor, b.minor), Then(CompareInt(a.patch, b.patch), ComparePre(a.pre, b.pre))))
  }

  /** What is no version comes before every version. */
  function CompareParsed(a: Option<Version>, b: Option<Version>): int {
    if a.None? then if b.None? then 0 else -1
    else if b.None? then 1
    else CompareVersion(a.value, b.value)
  }

  // ---- Parsing ----

  predicate NumericText(s: string) {
    s != "" && AllDigits(s) && (s[0] == '0' ==> |s| == 1)
  }

  predicate IdentText(s: string) {
    s != "" && forall i :: 0 <= i < |s| ==> IdentChar(s[i])
  }

  predicate PreText(s: string) {
    IdentText(s) && (AllDigits(s) ==> NumericText(s))
  }

  function IdentOf(s: string): Ident {
    if AllDigits(s) then Num(Decimal(s)) else Alnum(s)
  }

  function IdentsOf(parts: seq<string>): (r: seq<Ident>)
    ensures |r| == |parts|
  {
    seq(|parts|, i requires 0 <= i < |parts| => IdentOf(parts[i]))
  }

  /** The core: one to three numbers; the short forms stand alone. */
  function ParseCore(core: string, short: bool): Option<Version> {
    var parts := Split(core, '.');
    if |parts| > 3 || (|parts| < 3 && !short) || exists i :: 0 <= i < |parts| && !NumericText(parts[i]) then None
    else
      var minor, patch := if |parts| > 1 then Decimal(parts[1]) else 0, if |parts| > 2 then Decimal(parts[2]) else 0;
      Some(Version(Decimal(parts[0]), minor, patch, []))
  }

  /** The core, then after a dash the pre-release; build is the metadata with its plus, or empty. */
  function ParseMain(main: string, build: string): Option<Version> {
    var dash := IndexOf(main, '-');
    var core := ParseCore(main[..dash], dash == |main| && build == "");
    if core.None? || dash == |main| then core
    else
      var pre := Split(main[dash + 1..], '.');
      if exists i :: 0 <= i < |pre| && !PreText(pre[i]) then None
      else Some(core.value.(pre := IdentsOf(pre)))
  }

  predicate BuildText(build: string) {
    build != "" ==> forall i :: 0 <= i < |Split(build[1..], '.')| ==> IdentText(Split(build[1..], '.')[i])
  }

  function Parse(v: string): Option<Version> {
    if v == "" || v[0] != 'v' then None
    else
      var rest := v[1..];
      var plus := IndexOf(rest, '+');
      if BuildText(rest[plus..]) then ParseMain(rest[..plus], rest[plus..]) else None
  }

  // ---- The release revision ----

  /** Where a trailing "-r" and digits begins, or the length: the suffix starts at the last dash. */
  function RevisionStart(v: string): (i: nat)
    ensures i <= |v|
    ensures i < |v| ==> i + 2 < |v| && v[i] == '-' && v[i + 1] == 'r' && AllDigits(v[i + 2..])
  {
    var digits := DigitsStart(v);
    if 2 <= digits < |v| && v[digits - 1] == 'r' && v[digits - 2] == '-' then digits - 2 else |v|
  }

  /** Where the digits at the end begin. */
  function DigitsStart(v: string): (i: nat)
    ensures i <= |v| && AllDigits(v[i..])
    ensures i > 0 ==> !Digit(v[i - 1])
  {
    if v == [] || !Digit(v[|v| - 1]) then |v|
    else
      var i := DigitsStart(v[..|v| - 1]);
      assert forall k :: i <= k < |v| - 1 ==> v[k] == v[..|v| - 1][i..][k - i];
      i
  }

  /** The leading v may be left out. */
  function WithV(v: string): (w: string)
    ensures w != "" && w[0] == 'v'
  {
    if v != "" && v[0] == 'v' then v else "v" + v
  }

  /** The base version and the revision; a missing revision is 0. The number is kept in 64 bits. */
  function SplitVersion(v: string): (string, int) {
    if v == "" then ("v0.0.0", 0)
    else
      var w := WithV(v);
      var i := RevisionStart(w);
      if i == |w| then (w, 0) else (w[..i], Wrap(Decimal(w[i + 2..])) as int)
  }

  function Compare(v1: string, v2: string): int {
    var (base1, iter1) := SplitVersion(v1);
    var (base2, iter2) := SplitVersion(v2);
    Then(CompareParsed(Parse(base1), Parse(base2)), CompareInt(iter1, iter2))
  }

  /** The digit loop of the revision, in a 64-bit register. */
  method Revision(digits: string) returns (n: int64)
    requires AllDigits(digits)
    ensures n == Wrap(Decimal(digits))
  {
    n := 0;
    for i := 0 to |digits|
      invariant n == Wrap(Decimal(digits[..i]))
    {
      assert digits[..i + 1][..i] == digits[..i];
      WrapStep(Decimal(digits[..i]), digits[i] as int - '0' as int);
      n := Wrap(10 * n as int + (digits[i] as int - '0' as int));
    }
    assert digits[..|digits|] == digits;
  }

  lemma WrapStep(n: nat, d: nat)
    ensures Wrap(10 * Wrap(n) as int + d) == Wrap(10 * n + d)
  {
    var k := (n - Wrap(n) as int) / TWO64;
    WrapDistance(n);
    assert 10 * n + d == 10 * Wrap(n) as int + d + 10 * k * TWO64;
    WrapShift(10 * Wrap(n) as int + d, 10 * k);
  }

  lemma WrapDistance(n: int)
    ensures n == Wrap(n) as int + TWO64 * ((n - Wrap(n) as int) / TWO64)
  {
  }

  lemma WrapShift(n: int, k: int)
    ensures Wrap(n + k * TWO64) == Wrap(n)
  {
  }

  // ---- A total preorder ----

  /** A comparison with this sign in one direction has the opposite in the other. */
  lemma StringOrder(a: string, b: string, c: string)
    ensures CompareString(a, b) == -CompareString(b, a)
    ensures CompareString(a, b) <= 0 && CompareString(b, c) <= 0 ==>
              CompareString(a, c) <= 0
              && (CompareString(a, c) == 0 ==> CompareString(a, b) == 0 && CompareString(b, c) == 0)
  {
    hide Less;
    LessTotal(a, b);
    if Less(a, b) {
      LessAsymmetric(a, b);
    }
    if Less(b, a) {
      LessAsymmetric(b, a);
    }
    if Less(a, b) && Less(b, c) {
      LessTransitive(a, b, c);
      LessAsymmetric(a, c);
    }
  }

  lemma IdentOrder(a: Ident, b: Ident, c: Ident)
    ensures CompareIdent(a, b) == -CompareIdent(b, a)
    ensures CompareIdent(a, b) <= 0 && CompareIdent(b, c) <= 0 ==>
              CompareIdent(a, c) <= 0
              && (CompareIdent(a, c) == 0 ==> CompareIdent(a, b) == 0 && CompareIdent(b, c) == 0)
  {
    hide CompareString;
    if a.Alnum? && b.Alnum? {
      StringOrder(a.s, b.s, if c.Alnum? then c.s else a.s);
    }
  }

  lemma {:induction false} IdentsOrder(a: seq<Ident>, b: seq<Ident>, c: seq<Ident>)
    ensures CompareIdents(a, b) == -CompareIdents(b, a)
    ensures CompareIdents(a, b) <= 0 && CompareIdents(b, c) <= 0 ==>
              CompareIdents(a, c) <= 0
              && (CompareIdents(a, c) == 0 ==> CompareIdents(a, b) == 0 && CompareIdents(b, c) == 0)
  {
    hide CompareIdent;
    if a != [] && b != [] {
      var tail := if c == [] then [] else c[1..];
      IdentOrder(a[0], b[0], if c == [] then a[0] else c[0]);
      IdentsOrder(a[1..], b[1..], tail);
    }
  }

  lemma ParsedOrder(a: Option<Version>, b: Option<Version>, c: Option<Version>)
    ensures CompareParsed(a, b) == -CompareParsed(b, a)
    ensures CompareParsed(a, b) <= 0 && CompareParsed(b, c) <= 0 ==>
              CompareParsed(a, c) <= 0
              && (CompareParsed(a, c) == 0 ==> CompareParsed(a, b) == 0 && CompareParsed(b, c) == 0)
  {
    hide CompareIdents;
    if a.Some? && b.Some? {
      IdentsOrder(a.value.pre, b.value.pre, if c.Some? then c.value.pre else []);
    }
  }

  /** On all strings: total, symmetric in sign, transitive; ties are an equivalence. */
  lemma CompareIsTotalPreorder(a: string, b: string, c: string)
    ensures Compare(a, a) == 0
    ensures -1 <= Compare(a, b) <= 1 && Compare(a, b) == -Compare(b, a)
    ensures Compare(a, b) <= 0 && Compare(b, c) <= 0 ==>
              Compare(a, c) <= 0 && (Compare(a, c) == 0 ==> Compare(a, b) == 0 && Compare(b, c) == 0)
  {
    hide CompareParsed, SplitVersion, Parse;
    var pa, pb, pc := Parse(SplitVersion(a).0), Parse(SplitVersion(b).0), Parse(SplitVersion(c).0);
    ParsedOrder(pa, pb, pc);
    ParsedOrder(pa, pa, pa);
    ParsedRange(pa, pb);
  }

  lemma ParsedRange(a: Option<Version>, b: Option<Version>)
    ensures -1 <= CompareParsed(a, b) <= 1
  {
    if a.Some? && b.Some? {
      IdentsRange(a.value.pre, b.value.pre);
    }
  }

  lemma {:induction false} IdentsRange(a: seq<Ident>, b: seq<Ident>)
    ensures -1 <= CompareIdents(a, b) <= 1
  {
    if a != [] && b != [] {
      IdentsRange(a[1..], b[1..]);
    }
  }

  // ---- Revisions and candidates ----

  /** A release without metadata, with or without the v: no dash, no plus, and it parses. */
  predicate PlainRelease(base: string) {
    base != "" && '-' !in base && '+' !in base && Parse(WithV(base)).Some?
  }

  /** A version that does not end in a revision. */
  predicate NoRevision(base: string) {
    base != "" && RevisionStart(WithV(base)) == |WithV(base)|
  }

  predicate Digits(s: string) {
    s != "" && AllDigits(s)
  }

  lemma {:induction false} DigitsStartAppend(v: string, digits: string)
    requires AllDigits(digits) && v != "" && !Digit(v[|v| - 1])
    ensures DigitsStart(v + digits) == |v|
    decreases |digits|
  {
    if digits != "" {
      assert (v + digits)[..|v + digits| - 1] == v + digits[..|digits| - 1];
      DigitsStartAppend(v, digits[..|digits| - 1]);
    } else {
      assert v + digits == v;
    }
  }

  lemma SplitRevision(base: string, digits: string)
    requires base != "" && Digits(digits)
    ensures SplitVersion(base + "-r" + digits) == (WithV(base), Wrap(Decimal(digits)) as int)
  {
    var full := WithV(base);
    var stem := full + "-r";
    var v := stem + digits;
    assert WithV(base + "-r" + digits) == v;
    DigitsStartAppend(stem, digits);
    assert v[|stem|..] == digits && v[..|full|] == full;
    assert v[|stem| - 1] == 'r' && v[|stem| - 2] == '-';
  }

  lemma SplitNoRevision(base: string)
    requires NoRevision(base)
    ensures base != "" && SplitVersion(base) == (WithV(base), 0)
  {
  }

  /** A base without a dash has no revision. */
  lemma PlainHasNoRevision(base: string)
    requires base != "" && '-' !in base
    ensures NoRevision(base)
  {
    var full := WithV(base);
    assert forall i :: 0 <= i < |full| ==> full[i] != '-' by {
      assert full == base || full == "v" + base;
      assert forall i :: 0 <= i < |base| ==> base[i] in base && base[i] != '-';
    }
  }

  /**
   For every base that has no revision of its own, a release or a pre-release, with
   or without the v: revisions order by their numbers as 64-bit registers hold them,
   and the base comes before exactly those whose register is positive.
   */
  lemma RevisionOrder(base: string, n: string, m: string)
    requires NoRevision(base) && Digits(n) && Digits(m)
    ensures Compare(base + "-r" + n, base + "-r" + m) == CompareInt(Wrap(Decimal(n)) as int, Wrap(Decimal(m)) as int)
    ensures Compare(base, base + "-r" + m) == CompareInt(0, Wrap(Decimal(m)) as int)
    ensures Compare(base, base + "-r" + m) < 0 <==> 0 < Decimal(m) % TWO64 < TWO63
  {
    hide Parse, CompareParsed, SplitVersion, Decimal, NoRevision, WithV;
    SplitNoRevision(base);
    SplitRevision(base, n);
    SplitRevision(base, m);
    ParsedOrder(Parse(WithV(base)), Parse(WithV(base)), Parse(WithV(base)));
  }

  /** Below 2^63 the order is that of the numbers, and every revision above 0 is newer than its base. */
  lemma SmallRevisionOrder(base: string, n: string, m: string)
    requires NoRevision(base) && Digits(n) && Digits(m) && Decimal(n) < TWO63 && Decimal(m) < TWO63
    ensures Compare(base + "-r" + n, base + "-r" + m) == CompareInt(Decimal(n), Decimal(m))
    ensures Compare(base, base + "-r" + m) == CompareInt(0, Decimal(m))
  {
    hide Compare, Decimal, NoRevision, Digits;
    RevisionOrder(base, n, m);
  }

  function Zeros(k: nat): string {
    if k == 0 then "" else Zeros(k - 1) + "0"
  }

  function Pow10(k: nat): nat {
    if k == 0 then 1 else 10 * Pow10(k - 1)
  }

  lemma {:induction false} DecimalZeros(k: nat)
    ensures Digits("1" + Zeros(k)) && Decimal("1" + Zeros(k)) == Pow10(k)
  {
    if k == 0 {
      assert "1" + Zeros(0) == "1" && "1"[..0] == "";
    } else {
      DecimalZeros(k - 1);
      var all := "1" + Zeros(k);
      assert all == "1" + Zeros(k - 1) + "0" && all[..|all| - 1] == "1" + Zeros(k - 1);
    }
  }

  /** A revision of 10^19 wraps to a negative number: it is older than its base and than -r1. */
  lemma HugeRevision(base: string)
    requires NoRevision(base)
    ensures Compare(base + "-r" + ("1" + Zeros(19)), base) < 0
    ensures Compare(base + "-r" + ("1" + Zeros(19)), base + "-r" + "1") < 0
  {
    hide NoRevision, Decimal, Digits, Compare, Zeros;
    var huge := "1" + Zeros(19);
    DecimalZeros(19);
    OneDigit();
    assert Pow10(5) == 100_000;
    assert Pow10(10) == 10_000_000_000;
    assert Pow10(15) == 1_000_000_000_000_000;
    RevisionOrder(base, huge, "1");
    RevisionOrder(base, "1", huge);
    CompareIsTotalPreorder(base + "-r" + huge, base, base);
  }

  lemma OneDigit()
    ensures Digits("1") && Decimal("1") == 1
  {
    assert "1"[..0] == "";
  }

  lemma {:induction false} IndexOfAbsent(s: string, c: char)
    requires c !in s
    ensures IndexOf(s, c) == |s|
  {
    if s != "" {
      assert forall k :: 0 <= k < |s| - 1 ==> s[1..][k] == s[k + 1];
      IndexOfAbsent(s[1..], c);
    }
  }

  lemma {:induction false} IndexOfAfter(s: string, c: char, rest: string)
    requires c !in s && rest != "" && rest[0] == c
    ensures IndexOf(s + rest, c) == |s|
  {
    if s != "" {
      assert forall k :: 0 <= k < |s| - 1 ==> s[1..][k] == s[k + 1];
      assert (s + rest)[1..] == s[1..] + rest;
      IndexOfAfter(s[1..], c, rest);
    }
  }

  lemma ParseWithoutBuild(v: string)
    requires v != "" && v[0] == 'v' && '+' !in v[1..]
    ensures Parse(v) == ParseMain(v[1..], "")
  {
    hide ParseMain;
    var rest := v[1..];
    IndexOfAbsent(rest, '+');
    assert rest[..|rest|] == rest && rest[|rest|..] == "";
  }

  lemma ParseMainPre(core: string, pre: string)
    requires '-' !in core && |Split(core, '.')| == 3 && PreText(pre) && '.' !in pre
    ensures ParseMain(core + "-" + pre, "") == match ParseMain(core, "")
            case None => None
            case Some(v) => Some(v.(pre := [IdentOf(pre)]))
  {
    DashSplit(core, pre);
    OnePart(pre);
    hide IndexOf, ParseCore, Split, PreText, IdentOf;
    var main := core + "-" + pre;
    assert core[..|core|] == core;
    assert IdentsOf([pre]) == [IdentOf(pre)];
    LongCore(core);
  }

  lemma DashSplit(core: string, pre: string)
    requires '-' !in core
    ensures var main := core + "-" + pre;
            && IndexOf(main, '-') == |core| && IndexOf(core, '-') == |core|
            && main[..|core|] == core && main[|core| + 1..] == pre
  {
    assert core + "-" + pre == core + ("-" + pre);
    IndexOfAbsent(core, '-');
    IndexOfAfter(core, '-', "-" + pre);
  }

  lemma OnePart(s: string)
    requires '.' !in s
    ensures Split(s, '.') == [s]
  {
    IndexOfAbsent(s, '.');
  }

  /** With all three numbers it makes no difference whether a short form would be allowed. */
  lemma LongCore(core: string)
    requires |Split(core, '.')| == 3
    ensures ParseCore(core, true) == ParseCore(core, false)
  {
  }

  /** A pre-release of a plain release, with one identifier. */
  lemma ParsePre(base: string, pre: string)
    requires PlainRelease(base) && |Split(WithV(base)[1..], '.')| == 3
    requires PreText(pre) && '.' !in pre && '+' !in pre
    ensures Parse(WithV(base) + "-" + pre) == Some(Parse(WithV(base)).value.(pre := [IdentOf(pre)]))
  {
    PlainCore(base);
    hide PreText, Parse, ParseMain, IdentOf, WithV;
    var core, v := WithV(base)[1..], WithV(base) + "-" + pre;
    assert v[1..] == core + "-" + pre;
    assert '+' !in v[1..];
    ParseWithoutBuild(WithV(base));
    ParseWithoutBuild(v);
    ParseMainPre(core, pre);
  }

  lemma PlainCore(base: string)
    requires PlainRelease(base)
    ensures '-' !in WithV(base)[1..] && '+' !in WithV(base)[1..]
  {
    hide Parse;
    var core := WithV(base)[1..];
    forall k | 0 <= k < |core| ensures core[k] in base {
      assert core[k] == if base[0] == 'v' then base[k + 1] else base[k];
    }
  }

  /** x.y.z-rcN is a pre-release: older than x.y.z, and so older than every x.y.z-rM. */
  lemma CandidateOrder(base: string, n: string, m: string)
    requires PlainRelease(base) && |Split(WithV(base)[1..], '.')| == 3 && Digits(n) && Digits(m)
    ensures Compare(base + "-rc" + n, base) == -1
    ensures Compare(base + "-rc" + n, base + "-r" + m) == -1
  {
    hide Decimal, Parse, SplitVersion, PreText, CompareParsed, WithV, NoRevision, Split;
    var full, pre := WithV(base), "rc" + n;
    CandidateText(n);
    ParsePre(base, pre);
    SplitCandidate(base, n);
    PlainHasNoRevision(base);
    SplitNoRevision(base);
    SplitRevision(base, m);
    PlainHasNoPre(base);
    CandidateOlder(Parse(full).value, pre);
  }

  lemma PlainHasNoPre(base: string)
    requires PlainRelease(base)
    ensures Parse(WithV(base)).value.pre == []
  {
    PlainCore(base);
    hide IdentOf, PreText, NumericText, BuildText, Split, WithV;
    ParseWithoutBuild(WithV(base));
    IndexOfAbsent(WithV(base)[1..], '-');
  }

  lemma CandidateOlder(v: Version, pre: string)
    requires v.pre == []
    ensures CompareParsed(Some(v.(pre := [IdentOf(pre)])), Some(v)) == -1
  {
  }

  lemma CandidateText(n: string)
    requires Digits(n)
    ensures PreText("rc" + n) && '.' !in "rc" + n && '+' !in "rc" + n
  {
    var s := "rc" + n;
    assert s[0] == 'r';
    forall i | 0 <= i < |s| ensures IdentChar(s[i]) && s[i] != '.' && s[i] != '+' {
      if i >= 2 {
        assert s[i] == n[i - 2];
      }
    }
  }

  lemma SplitCandidate(base: string, n: string)
    requires base != "" && Digits(n)
    ensures SplitVersion(base + "-rc" + n) == (WithV(base) + "-" + ("rc" + n), 0)
  {
    var stem := WithV(base) + "-rc";
    assert WithV(base + "-rc" + n) == stem + n == WithV(base) + "-" + ("rc" + n);
    DigitsStartAppend(stem, n);
    assert (stem + n)[|stem| - 1] == 'c';
  }

  // ---- Plain releases and single identifiers ----

  /** Numerals without leading zeros order by length and then as text. */
  lemma NumeralOrder(a: string, b: string)
    requires NumericText(a) && NumericText(b)
    ensures Decimal(a) < Decimal(b) <==> |a| < |b| || (|a| == |b| && Less(a, b))
    ensures Decimal(a) == Decimal(b) <==> a == b
  {
    DecimalBounds(a);
    DecimalBounds(b);
    if |a| < |b| {
      Pow10Grows(|a|, |b| - 1);
    } else if |b| < |a| {
      Pow10Grows(|b|, |a| - 1);
    } else {
      SameLength(a, b);
    }
    hide Decimal, Less, Pow10;
  }

  lemma {:induction false} Pow10Grows(i: nat, j: nat)
    requires i <= j
    ensures 0 < Pow10(i) <= Pow10(j)
    decreases j
  {
    if i < j {
      Pow10Grows(i, j - 1);
    } else if i > 0 {
      Pow10Grows(i - 1, i - 1);
    }
  }

  lemma {:induction false} DecimalBounds(s: string)
    requires AllDigits(s)
    ensures Decimal(s) < Pow10(|s|)
    ensures s != "" && s[0] != '0' ==> Pow10(|s| - 1) <= Decimal(s)
    ensures s == "0" ==> Decimal(s) == 0
    decreases |s|
  {
    if s != "" {
      DecimalBounds(s[..|s| - 1]);
      if |s| == 1 {
        assert Decimal(s[..0]) == 0;
      }
    }
  }

  lemma {:induction false} SameLength(a: string, b: string)
    requires AllDigits(a) && AllDigits(b) && |a| == |b|
    ensures Decimal(a) < Decimal(b) <==> Less(a, b)
    ensures Decimal(a) == Decimal(b) <==> a == b
    decreases |a|
  {
    if a != "" {
      var n := |a| - 1;
      SameLength(a[..n], b[..n]);
      LessAppend(a[..n], b[..n], a[n], b[n]);
      assert a == a[..n] + [a[n]] && b == b[..n] + [b[n]];
      hide Less;
    }
  }

  lemma {:induction false} LessAppend(a: string, b: string, x: char, y: char)
    requires |a| == |b|
    ensures Less(a + [x], b + [y]) <==> Less(a, b) || (a == b && x < y)
    decreases |a|
  {
    if a != "" {
      LessAppend(a[1..], b[1..], x, y);
      assert (a + [x])[1..] == a[1..] + [x] && (b + [y])[1..] == b[1..] + [y];
      assert a == [a[0]] + a[1..] && b == [b[0]] + b[1..];
    }
  }

  /** The three numerals of a release x.y.z. */
  datatype Numerals = Numerals(major: string, minor: string, patch: string) {
    predicate Valid() {
      NumericText(major) && NumericText(minor) && NumericText(patch)
    }

    function Text(): string {
      major + "." + minor + "." + patch
    }
  }

  /** Releases x.y.z, with or without the v: the first of major, minor and patch that differs decides. */
  lemma ReleaseOrder(a: Numerals, b: Numerals, va: bool, vb: bool)
    requires a.Valid() && b.Valid()
    ensures Compare((if va then "v" else "") + a.Text(), (if vb then "v" else "") + b.Text()) ==
            if Decimal(a.major) != Decimal(b.major) then if Decimal(a.major) < Decimal(b.major) then -1 else 1
            else if Decimal(a.minor) != Decimal(b.minor) then if Decimal(a.minor) < Decimal(b.minor) then -1 else 1
            else if Decimal(a.patch) != Decimal(b.patch) then if Decimal(a.patch) < Decimal(b.patch) then -1 else 1
            else 0
  {
    hide SplitVersion, Parse, Decimal, IdentOf, CompareIdents;
    ReleaseParsed(a, va);
    ReleaseParsed(b, vb);
  }

  lemma ReleaseParsed(a: Numerals, v: bool)
    requires a.Valid()
    ensures var text := (if v then "v" else "") + a.Text();
            && SplitVersion(text).1 == 0
            && Parse(SplitVersion(text).0) == Some(Version(Decimal(a.major), Decimal(a.minor), Decimal(a.patch), []))
  {
    hide Parse, SplitVersion, Decimal, IndexOf, Split, ParseMain;
    var core := a.Text();
    var text := (if v then "v" else "") + core;
    ReleaseText(a);
    assert core[0] == a.major[0] && WithV(text) == "v" + core;
    PrefixedText(core, v);
    PlainHasNoRevision(text);
    SplitNoRevision(text);
    assert ("v" + core)[1..] == core;
    ParseWithoutBuild("v" + core);
    ReleaseCore(a);
  }

  lemma PrefixedText(core: string, v: bool)
    requires '-' !in core
    ensures '-' !in (if v then "v" else "") + core
  {
    assert "" + core == core;
  }

  /** No dash and no plus in it. */
  lemma ReleaseText(a: Numerals)
    requires a.Valid()
    ensures '-' !in a.Text() && '+' !in a.Text()
  {
    forall c | c in a.Text()
      ensures c == '.' || Digit(c)
    {
      assert c in a.major || c == '.' || c in a.minor || c in a.patch;
    }
  }

  lemma ReleaseCore(a: Numerals)
    requires a.Valid()
    ensures ParseMain(a.Text(), "") == Some(Version(Decimal(a.major), Decimal(a.minor), Decimal(a.patch), []))
  {
    hide Split, Decimal, IndexOf;
    var core := a.Text();
    ReleaseText(a);
    IndexOfAbsent(core, '-');
    assert core[..|core|] == core;
    ReleaseParts(a);
  }

  lemma ReleaseParts(a: Numerals)
    requires a.Valid()
    ensures Split(a.Text(), '.') == [a.major, a.minor, a.patch]
  {
    hide Split;
    NoDot(a.major);
    NoDot(a.minor);
    NoDot(a.patch);
    SplitAt(a.major, a.minor + "." + a.patch);
    SplitAt(a.minor, a.patch);
    OnePart(a.patch);
    assert a.Text() == a.major + "." + (a.minor + "." + a.patch);
  }

  lemma NoDot(s: string)
    requires NumericText(s)
    ensures '.' !in s
  {
  }

  lemma SplitAt(s: string, rest: string)
    requires '.' !in s
    ensures Split(s + "." + rest, '.') == [s] + Split(rest, '.')
  {
    IndexOfAfter(s, '.', "." + rest);
    assert s + "." + rest == s + ("." + rest);
    assert (s + "." + rest)[|s| + 1..] == rest && (s + "." + rest)[..|s|] == s;
  }

  /**
   Pre-releases of one release with one identifier each: numbers come before texts
   and order as numbers, texts order as byte strings.
   */
  lemma IdentifierOrder(base: string, p: string, q: string)
    requires PlainRelease(base) && |Split(WithV(base)[1..], '.')| == 3
    requires PreText(p) && '.' !in p && '+' !in p && NoRevision(base + "-" + p)
    requires PreText(q) && '.' !in q && '+' !in q && NoRevision(base + "-" + q)
    ensures Compare(base + "-" + p, base + "-" + q) ==
            if AllDigits(p) && AllDigits(q) then
              if Decimal(p) < Decimal(q) then -1 else if Decimal(p) > Decimal(q) then 1 else 0
            else if AllDigits(p) then -1
            else if AllDigits(q) then 1
            else if p == q then 0 else if Less(p, q) then -1 else 1
  {
    hide Parse, SplitVersion, PreText, WithV, NoRevision, Split, Decimal, Less, CompareParsed, AllDigits;
    PreParsed(base, p);
    PreParsed(base, q);
    OneIdentifier(Parse(WithV(base)).value, IdentOf(p), IdentOf(q));
  }

  lemma OneIdentifier(v: Version, p: Ident, q: Ident)
    ensures CompareParsed(Some(v.(pre := [p])), Some(v.(pre := [q]))) == CompareIdent(p, q)
  {
    hide CompareIdent;
    assert [p][1..] == [] && [q][1..] == [];
    assert CompareIdents([p], [q]) == Then(CompareIdent(p, q), CompareIdents([], []));
  }

  lemma PreParsed(base: string, p: string)
    requires PlainRelease(base) && |Split(WithV(base)[1..], '.')| == 3
    requires PreText(p) && '.' !in p && '+' !in p && NoRevision(base + "-" + p)
    ensures SplitVersion(base + "-" + p).1 == 0
    ensures Parse(SplitVersion(base + "-" + p).0) == Some(Parse(WithV(base)).value.(pre := [IdentOf(p)]))
  {
    ParsePre(base, p);
    SplitNoRevision(base + "-" + p);
    assert WithV(base + "-" + p) == WithV(base) + "-" + p;
    hide Parse, PreText, NoRevision, IdentOf;
  }
}
