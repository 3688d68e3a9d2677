/** The two pure helpers of util.go that the ledger depends on: `vnum`, which
    turns a dotted version string into the uint64 ordering key stored in the
    vnum column, and `urlify`, which substitutes a version into a download-URL
    template. Go's strings.Split and strconv.ParseUint, which vnum calls, are
    modelled here as functions. */
module Util {
  import opened Base

  /** The weight of one version component in the encoding. */
  const Radix: int := 1_000_000

  /** The literal marker that urlify replaces. */
  const Marker: string := "{{version}}"

  // ---------------------------------------------------------------------
  // strings.Split(s, ".")
  // ---------------------------------------------------------------------

  /** Go's strings.Split with separator ".": the empty string gives one empty
      part, and two adjacent dots give an empty part between them. */
  function Split(s: string): (parts: seq<string>)
    ensures |parts| >= 1
  {
    if s == [] then [[]]
    else
      var rest := Split(s[1..]);
      if s[0] == '.' then [[]] + rest
      else [[s[0]] + rest[0]] + rest[1..]
  }

  /** strings.Join(parts, "."), the inverse of Split. */
  function Join(parts: seq<string>): string
    requires |parts| >= 1
  {
    if |parts| == 1 then parts[0] else parts[0] + "." + Join(parts[1..])
  }

  /** Splitting loses nothing: the parts joined back give the input, and no
      part contains the separator. */
  lemma {:induction false} SplitJoin(s: string)
    ensures Join(Split(s)) == s
    ensures forall k :: 0 <= k < |Split(s)| ==> '.' !in Split(s)[k]
  {
    if s != [] {
      var rest := Split(s[1..]);
      SplitJoin(s[1..]);
      if s[0] == '.' {
        assert Split(s) == [[]] + rest;
        assert Join(Split(s)) == "" + "." + Join(rest);
      } else {
        assert Split(s) == [[s[0]] + rest[0]] + rest[1..];
        if |rest| == 1 {
          assert Join(Split(s)) == [s[0]] + rest[0];
        } else {
          assert Join(rest) == rest[0] + "." + Join(rest[1..]);
          assert Join(Split(s)) == ([s[0]] + rest[0]) + "." + Join(rest[1..]);
        }
        forall k | 0 <= k < |Split(s)| ensures '.' !in Split(s)[k] {
          if k > 0 { assert Split(s)[k] == rest[k]; }
        }
      }
    }
  }

  /** A string without a dot is one part. */
  lemma {:induction false} SplitNoDot(p: string)
    requires '.' !in p
    ensures Split(p) == [p]
  {
    if p != [] {
      assert '.' !in p[1..] by {
        forall k | 0 <= k < |p[1..]| ensures p[1..][k] != '.' { assert p[1..][k] == p[k + 1]; }
      }
      SplitNoDot(p[1..]);
      assert [p[0]] + p[1..] == p;
    }
  }

  /** Splitting distributes over a separator: the parts of `a.b` are the
      parts of `a` followed by the parts of `b`. */
  lemma {:induction false} SplitConcat(a: string, b: string)
    ensures Split(a + "." + b) == Split(a) + Split(b)
  {
    var s := a + "." + b;
    if a == [] {
      assert s[0] == '.' && s[1..] == b;
    } else {
      assert s[0] == a[0] && s[1..] == a[1..] + "." + b;
      SplitConcat(a[1..], b);
    }
  }

  /** The converse round trip: dot-free parts joined and split come back. */
  lemma {:induction false} JoinSplit(parts: seq<string>)
    requires |parts| >= 1
    requires forall k :: 0 <= k < |parts| ==> '.' !in parts[k]
    ensures Split(Join(parts)) == parts
  {
    if |parts| == 1 {
      SplitNoDot(parts[0]);
    } else {
      var rest := parts[1..];
      assert forall k :: 0 <= k < |rest| ==> rest[k] == parts[k + 1];
      JoinSplit(rest);
      assert Join(parts) == parts[0] + "." + Join(rest);
      SplitNoDot(parts[0]);
      SplitConcat(parts[0], Join(rest));
      assert [parts[0]] + rest == parts;
    }
  }

  // ---------------------------------------------------------------------
  // strconv.ParseUint(s, 10, 64)
  // ---------------------------------------------------------------------

  predicate IsDigit(c: char) { '0' <= c <= '9' }

  predicate AllDigits(s: string) { forall k :: 0 <= k < |s| ==> IsDigit(s[k]) }

  function DigitValue(c: char): nat
    requires IsDigit(c)
  {
    (c as int) - ('0' as int)
  }

  /** The value of a string of decimal digits, leading zeros allowed. */
  function DecimalValue(s: string): nat
    requires AllDigits(s)
  {
    if s == [] then 0 else DecimalValue(s[..|s| - 1]) * 10 + DigitValue(s[|s| - 1])
  }

  /** strconv.ParseUint(s, 10, 64): rejects the empty string, any character
      other than a decimal digit (no sign, no underscore, no prefix in base
      10), and any value above 2^64-1. */
  function ParseUint(s: string): Option<uint64>
  {
    if s != [] && AllDigits(s) && DecimalValue(s) < Modulus then Some(DecimalValue(s) as uint64)
    else None
  }

  function DigitChar(d: nat): char
    requires d < 10
  {
    ('0' as int + d) as char
  }

  /** The decimal spelling of n without leading zeros (strconv.FormatUint),
      used as the partner of ParseUint. */
  function ShowDecimal(n: nat): string
  {
    if n < 10 then [DigitChar(n)] else ShowDecimal(n / 10) + [DigitChar(n % 10)]
  }

  lemma {:induction false} ShowDecimalValue(n: nat)
    ensures ShowDecimal(n) != [] && AllDigits(ShowDecimal(n)) && '.' !in ShowDecimal(n)
    ensures DecimalValue(ShowDecimal(n)) == n
  {
    var s := ShowDecimal(n);
    if n >= 10 {
      ShowDecimalValue(n / 10);
      assert s[..|s| - 1] == ShowDecimal(n / 10);
      assert s[|s| - 1] == DigitChar(n % 10);
    }
  }

  /** ParseUint reads back every uint64 spelled in decimal. */
  lemma ParseShow(n: uint64)
    ensures ParseUint(ShowDecimal(n as nat)) == Some(n)
  {
    ShowDecimalValue(n as nat);
  }

  /** ParseUint rejects a decimal value beyond 64 bits. */
  lemma ParseRejectsOutOfRange(n: nat)
    requires n >= Modulus
    ensures ParseUint(ShowDecimal(n)) == None
  {
    ShowDecimalValue(n);
  }

  // ---------------------------------------------------------------------
  // vnum
  // ---------------------------------------------------------------------

  /** The padding loop of vnum: append "0" until there are three parts. */
  function Pad(parts: seq<string>): (padded: seq<string>)
    decreases 3 - |parts|
    ensures |padded| >= 3
    ensures |parts| >= 3 ==> padded == parts
    ensures |parts| < 3 ==> |padded| == 3 && padded[..|parts|] == parts
    ensures forall k :: |parts| <= k < |padded| ==> padded[k] == "0"
  {
    if |parts| >= 3 then parts else Pad(parts + ["0"])
  }

  /** The three components vnum parses: the first three parts of the
      version, padded with "0". Further parts are never looked at. */
  function Components(v: string): (c: seq<string>)
    ensures |c| == 3
  {
    Pad(Split(v))[..3]
  }

  /** Base-1,000,000 positional value of (major, minor, patch), reduced modulo
      2^64 as uint64 arithmetic does. No component is range-checked. */
  function Encode(major: uint64, minor: uint64, patch: uint64): uint64
  {
    ((major as int * Radix * Radix + minor as int * Radix + patch as int) % Modulus) as uint64
  }

  /** The value vnum(v) computes, stated in closed form. */
  function VnumOf(v: string): Result<uint64>
  {
    var c := Components(v);
    var major, minor, patch := ParseUint(c[0]), ParseUint(c[1]), ParseUint(c[2]);
    if major.Some? && minor.Some? && patch.Some? then Ok(Encode(major.value, minor.value, patch.value))
    else Err(MalformedVersion)
  }

  lemma ModAddMultiple(y: int, k: int)
    ensures (y + k * Modulus) % Modulus == y % Modulus
  {
    var q, r := y / Modulus, y % Modulus;
    assert y == q * Modulus + r;
    assert y + k * Modulus == (q + k) * Modulus + r;
  }

  /** Reducing the accumulator modulo 2^64 before the next step changes nothing:
      the step-wise wrap-around of `n = n*1000000 + u` equals one final wrap. */
  lemma WrapStep(x: int, u: int)
    requires x >= 0
    ensures ((x % Modulus) * Radix + u) % Modulus == (x * Radix + u) % Modulus
  {
    var q, r := x / Modulus, x % Modulus;
    assert x == q * Modulus + r;
    assert x * Radix + u == (r * Radix + u) + (q * Radix) * Modulus;
    ModAddMultiple(r * Radix + u, q * Radix);
  }

  /** vnum (util.go): split on ".", pad with "0", then parse and accumulate the
      first three components with wrapping uint64 arithmetic, failing at the
      first component ParseUint rejects. */
  method Vnum(v: string) returns (r: Result<uint64>)
    ensures r == VnumOf(v)
  {
    var sem := Split(v);
    while |sem| < 3
      invariant Pad(sem) == Pad(Split(v))
      decreases 3 - |sem|
    {
      sem := sem + ["0"];
    }
    ghost var c := Components(v);
    assert sem[..3] == c;
    var n: uint64 := 0;
    for i := 0 to 3
      invariant forall k :: 0 <= k < i ==> ParseUint(c[k]).Some?
      invariant i == 0 ==> n == 0
      invariant i == 1 ==> n == ParseUint(c[0]).value
      invariant i == 2 ==> n as int == (ParseUint(c[0]).value as int * Radix + ParseUint(c[1]).value as int) % Modulus
      invariant i == 3 ==> n == Encode(ParseUint(c[0]).value, ParseUint(c[1]).value, ParseUint(c[2]).value)
    {
      assert sem[i] == c[i];
      var u := ParseUint(sem[i]);
      if u.None? {
        return Err(MalformedVersion);
      }
      if i == 0 {
        assert (u.value as int) % Modulus == u.value as int;
      } else if i == 2 {
        WrapStep(ParseUint(c[0]).value as int * Radix + ParseUint(c[1]).value as int, u.value as int);
      }
      n := ((n as int * Radix + u.value as int) % Modulus) as uint64;
    }
    return Ok(n);
  }

  /** "1.2" and "1.2.0" (likewise "1" and "1.0") get the same key: a version
      with fewer than three parts is padded with zeros. */
  lemma VnumPadding(v: string)
    requires |Split(v)| < 3
    ensures VnumOf(v + ".0") == VnumOf(v)
  {
    assert v + ".0" == v + "." + "0";
    SplitConcat(v, "0");
    SplitNoDot("0");
    assert Split(v + ".0") == Split(v) + ["0"];
  }

  lemma VnumPaddingExamples()
    ensures VnumOf("1.2") == VnumOf("1.2.0")
    ensures VnumOf("1") == VnumOf("1.0.0")
  {
    SplitNoDot("1");
    SplitNoDot("2");
    SplitConcat("1", "2");
    assert "1" + "." + "2" == "1.2";
    VnumPadding("1.2");
    VnumPadding("1");
    assert "1" + ".0" == "1.0";
    SplitNoDot("0");
    SplitConcat("1", "0");
    assert "1" + "." + "0" == "1.0";
    VnumPadding("1.0");
    assert "1.0" + ".0" == "1.0.0";
    assert "1.2" + ".0" == "1.2.0";
  }

  /** Parts after the third are ignored, even non-numeric ones:
      vnum("1.2.3.x") == vnum("1.2.3"). */
  lemma VnumIgnoresExtra(v: string, w: string)
    requires |Split(v)| >= 3
    ensures VnumOf(v + "." + w) == VnumOf(v)
  {
    SplitConcat(v, w);
    assert (Split(v) + Split(w))[..3] == Split(v)[..3];
  }

  lemma VnumIgnoresExtraExample()
    ensures VnumOf("1.2.3.x") == VnumOf("1.2.3")
  {
    SplitNoDot("1");
    SplitNoDot("2");
    SplitNoDot("3");
    SplitConcat("1", "2");
    assert "1" + "." + "2" == "1.2";
    SplitConcat("1.2", "3");
    assert "1.2" + "." + "3" == "1.2.3";
    VnumIgnoresExtra("1.2.3", "x");
    assert "1.2.3" + "." + "x" == "1.2.3.x";
  }

  /** The spelling of a three-component version. */
  function VersionString(major: nat, minor: nat, patch: nat): string
  {
    ShowDecimal(major) + "." + ShowDecimal(minor) + "." + ShowDecimal(patch)
  }

  /** vnum of "a.b.c" is the wrapped base-1,000,000 value of (a, b, c). */
  lemma VnumFormula(major: uint64, minor: uint64, patch: uint64)
    ensures VnumOf(VersionString(major as nat, minor as nat, patch as nat)) == Ok(Encode(major, minor, patch))
  {
    var a, b, c := ShowDecimal(major as nat), ShowDecimal(minor as nat), ShowDecimal(patch as nat);
    ShowDecimalValue(major as nat);
    ShowDecimalValue(minor as nat);
    ShowDecimalValue(patch as nat);
    SplitConcat(a + "." + b, c);
    SplitConcat(a, b);
    SplitNoDot(a);
    SplitNoDot(b);
    SplitNoDot(c);
    assert Split(VersionString(major as nat, minor as nat, patch as nat)) == [a, b, c];
    ParseShow(major);
    ParseShow(minor);
    ParseShow(patch);
  }

  /** With every component below 1,000,000 nothing wraps: the key is exactly
      a*10^12 + b*10^6 + c. */
  lemma EncodeExact(major: uint64, minor: uint64, patch: uint64)
    requires major as int < Radix && minor as int < Radix && patch as int < Radix
    ensures Encode(major, minor, patch) as int == major as int * 1_000_000_000_000 + minor as int * 1_000_000 + patch as int
  {
  }

  /** vnum("1.2.3") == 1000002000003. */
  lemma VnumExample()
    ensures VnumOf("1.2.3") == Ok(1_000_002_000_003)
  {
    assert VersionString(1, 2, 3) == "1.2.3";
    VnumFormula(1, 2, 3);
  }

  predicate LexLess(a: (nat, nat, nat), b: (nat, nat, nat))
  {
    a.0 < b.0 || (a.0 == b.0 && (a.1 < b.1 || (a.1 == b.1 && a.2 < b.2)))
  }

  /** Below the 1,000,000 bound, vnum orders versions exactly as the
      lexicographic order on (major, minor, patch), in both directions. */
  lemma VnumOrderPreserving(a1: uint64, b1: uint64, c1: uint64, a2: uint64, b2: uint64, c2: uint64)
    requires a1 as int < Radix && b1 as int < Radix && c1 as int < Radix
    requires a2 as int < Radix && b2 as int < Radix && c2 as int < Radix
    ensures VnumOf(VersionString(a1 as nat, b1 as nat, c1 as nat)).Ok?
    ensures VnumOf(VersionString(a2 as nat, b2 as nat, c2 as nat)).Ok?
    ensures VnumOf(VersionString(a1 as nat, b1 as nat, c1 as nat)).value < VnumOf(VersionString(a2 as nat, b2 as nat, c2 as nat)).value
        <==> LexLess((a1 as nat, b1 as nat, c1 as nat), (a2 as nat, b2 as nat, c2 as nat))
  {
    VnumFormula(a1, b1, c1);
    VnumFormula(a2, b2, c2);
    EncodeExact(a1, b1, c1);
    EncodeExact(a2, b2, c2);
  }

  lemma ShowMillion()
    ensures ShowDecimal(1_000_000) == "1000000"
  {
    assert ShowDecimal(1) == "1";
    assert ShowDecimal(10) == "10";
    assert ShowDecimal(100) == "100";
    assert ShowDecimal(1000) == "1000";
    assert ShowDecimal(10000) == "10000";
    assert ShowDecimal(100000) == "100000";
  }

  lemma VnumOfZero()
    ensures VnumOf("0.0.0") == Ok(0)
  {
    assert ShowDecimal(0) == "0";
    assert VersionString(0, 0, 0) == "0.0.0";
    VnumFormula(0, 0, 0);
  }

  lemma VnumOfOne()
    ensures VnumOf("1.0.0") == Ok(1_000_000_000_000)
  {
    assert ShowDecimal(0) == "0" && ShowDecimal(1) == "1";
    assert VersionString(1, 0, 0) == "1.0.0";
    VnumFormula(1, 0, 0);
  }

  lemma VersionStringMillionMinor()
    ensures VersionString(0, 1_000_000, 0) == "0.1000000.0"
  {
    ShowMillion();
    assert ShowDecimal(0) == "0";
  }

  lemma VnumOfMillionMinor()
    ensures VnumOf("0.1000000.0") == Ok(1_000_000_000_000)
  {
    VersionStringMillionMinor();
    VnumFormula(0, 1_000_000, 0);
    assert Encode(0, 1_000_000, 0) == 1_000_000_000_000;
  }

  /** There is no per-component range check, so a component of 1,000,000
      carries into the next: "0.1000000.0" and "1.0.0" collide. */
  lemma VnumCarryCollision()
    ensures VnumOf("0.1000000.0") == VnumOf("1.0.0")
  {
    VnumOfMillionMinor();
    VnumOfOne();
  }

  /** The accumulation wraps modulo 2^64: two versions whose base-1,000,000
      values differ by 2^64 get the same key. */
  lemma VnumWrapsAround(a: uint64, b: uint64, c: uint64, x: uint64, y: uint64, z: uint64)
    requires a as int * Radix * Radix + b as int * Radix + c as int
          == Modulus + x as int * Radix * Radix + y as int * Radix + z as int
    ensures VnumOf(VersionString(a as nat, b as nat, c as nat)) == VnumOf(VersionString(x as nat, y as nat, z as nat))
  {
    VnumFormula(a, b, c);
    VnumFormula(x, y, z);
    ModAddMultiple(x as int * Radix * Radix + y as int * Radix + z as int, 1);
  }

  lemma ShowWrapMajor()
    ensures ShowDecimal(18_446_744) == "18446744"
  {
    assert ShowDecimal(1) == "1";
    assert ShowDecimal(18) == "18";
    assert ShowDecimal(184) == "184";
    assert ShowDecimal(1844) == "1844";
    assert ShowDecimal(18446) == "18446";
    assert ShowDecimal(184467) == "184467";
    assert ShowDecimal(1844674) == "1844674";
  }

  lemma ShowWrapMinor()
    ensures ShowDecimal(73_709) == "73709"
  {
    assert ShowDecimal(7) == "7";
    assert ShowDecimal(73) == "73";
    assert ShowDecimal(737) == "737";
    assert ShowDecimal(7370) == "7370";
  }

  lemma ShowWrapPatch()
    ensures ShowDecimal(551_616) == "551616"
  {
    assert ShowDecimal(5) == "5";
    assert ShowDecimal(55) == "55";
    assert ShowDecimal(551) == "551";
    assert ShowDecimal(5516) == "5516";
    assert ShowDecimal(55161) == "55161";
  }

  lemma VersionStringWrap()
    ensures VersionString(18_446_744, 73_709, 551_616) == "18446744.73709.551616"
  {
    ShowWrapMajor();
    ShowWrapMinor();
    ShowWrapPatch();
  }

  /** "18446744.73709.551616" spells exactly 2^64 and collides with "0.0.0",
      whose vnum is 0. */
  lemma VnumWrapsAroundExample()
    ensures VnumOf("18446744.73709.551616") == VnumOf("0.0.0") == Ok(0)
  {
    VersionStringWrap();
    assert VersionString(0, 0, 0) == "0.0.0" by { assert ShowDecimal(0) == "0"; }
    VnumWrapsAround(18_446_744, 73_709, 551_616, 0, 0, 0);
    VnumOfZero();
  }

  /** vnum fails on "", on "1..2" (an empty component) and on "a.b.c"
      (non-digits). */
  lemma VnumRejectsMalformed()
    ensures VnumOf("").Err?
    ensures VnumOf("1..2").Err?
    ensures VnumOf("a.b.c").Err?
  {
    assert Split("") == [""];
    assert "1..2" == "1" + "." + ("" + "." + "2");
    SplitConcat("1", "" + "." + "2");
    SplitConcat("", "2");
    SplitNoDot("1");
    SplitNoDot("2");
    assert Components("1..2")[1] == "";
    assert "a.b.c" == "a" + "." + "b.c";
    SplitConcat("a", "b.c");
    SplitNoDot("a");
    assert Components("a.b.c")[0] == "a";
    assert !IsDigit('a');
  }

  /** A component above 2^64-1 is a ParseUint range error, so vnum fails. */
  lemma VnumRejectsOutOfRange(n: nat)
    requires n >= Modulus
    ensures VnumOf(VersionString(n, 0, 0)).Err?
  {
    var a := ShowDecimal(n);
    ShowDecimalValue(n);
    SplitConcat(a + "." + "0", "0");
    SplitConcat(a, "0");
    SplitNoDot(a);
    SplitNoDot("0");
    assert Split(VersionString(n, 0, 0)) == [a, "0", "0"];
    ParseRejectsOutOfRange(n);
  }

  // ---------------------------------------------------------------------
  // urlify
  // ---------------------------------------------------------------------

  /** urlify (util.go): replace every leftmost, non-overlapping occurrence
      of the literal "{{version}}" by `version`, inserted verbatim. */
  function Urlify(template: string, version: string): string
  {
    if |template| < |Marker| then template
    else if template[..|Marker|] == Marker then version + Urlify(template[|Marker|..], version)
    else [template[0]] + Urlify(template[1..], version)
  }

  ghost predicate MarkerAt(t: string, k: nat)
  {
    k + |Marker| <= |t| && t[k..k + |Marker|] == Marker
  }

  ghost predicate ContainsMarker(t: string)
  {
    exists k: nat :: MarkerAt(t, k)
  }

  /** A template without the marker is returned unchanged. */
  lemma {:induction false} UrlifyNoMarker(t: string, v: string)
    requires !ContainsMarker(t)
    ensures Urlify(t, v) == t
  {
    if |t| >= |Marker| {
      assert !MarkerAt(t, 0);
      assert t[..|Marker|] == t[0..0 + |Marker|];
      assert !ContainsMarker(t[1..]) by {
        forall k: nat | MarkerAt(t[1..], k) ensures MarkerAt(t, k + 1) {
          assert t[1..][k..k + |Marker|] == t[k + 1..k + 1 + |Marker|];
        }
      }
      UrlifyNoMarker(t[1..], v);
      assert [t[0]] + t[1..] == t;
    }
  }

  /** Substituting the marker for itself gives the template back. */
  lemma {:induction false} UrlifyMarkerIdentity(t: string)
    ensures Urlify(t, Marker) == t
  {
    if |t| >= |Marker| {
      if t[..|Marker|] == Marker {
        UrlifyMarkerIdentity(t[|Marker|..]);
        assert t[..|Marker|] + t[|Marker|..] == t;
      } else {
        UrlifyMarkerIdentity(t[1..]);
        assert [t[0]] + t[1..] == t;
      }
    }
  }

  /** Each marker is replaced in turn: the text before the leftmost marker
      is copied, the marker becomes `v`, and the substitution goes on after
      it. The substitution is literal: whatever `v` contains (a "$1", say)
      is inserted verbatim. */
  lemma {:induction false} UrlifySplice(p: string, s: string, v: string)
    requires forall k :: 0 <= k < |p| ==> !MarkerAt(p + Marker + s, k)
    ensures Urlify(p + Marker + s, v) == p + v + Urlify(s, v)
  {
    var t := p + Marker + s;
    if p == [] {
      assert t[..|Marker|] == Marker && t[|Marker|..] == s;
    } else {
      var q := p[1..] + Marker + s;
      assert t == [p[0]] + q;
      assert t[1..] == q;
      assert !MarkerAt(t, 0);
      assert t[..|Marker|] != Marker by { assert t[..|Marker|] == t[0..0 + |Marker|]; }
      forall k | 0 <= k < |p[1..]| ensures !MarkerAt(q, k) {
        MarkerAtTail(t, k);
      }
      UrlifySplice(p[1..], s, v);
      assert [p[0]] + p[1..] == p;
    }
  }

  /** A marker at k in the tail of t is a marker at k + 1 in t. */
  lemma MarkerAtTail(t: string, k: nat)
    requires |t| >= 1
    ensures MarkerAt(t[1..], k) == MarkerAt(t, k + 1)
  {
    if k + |Marker| <= |t[1..]| {
      assert t[1..][k..k + |Marker|] == t[k + 1..k + 1 + |Marker|];
    }
  }

  /** A template with a single marker becomes the text around the marker
      with `v` in its place. */
  lemma UrlifyLiteral(p: string, s: string, v: string)
    requires forall k :: 0 <= k < |p| ==> !MarkerAt(p + Marker + s, k)
    requires !ContainsMarker(s)
    ensures Urlify(p + Marker + s, v) == p + v + s
  {
    UrlifySplice(p, s, v);
    UrlifyNoMarker(s, v);
  }

  /** Braces around the marker stay: "{{{version}}}" becomes "{" + v + "}". */
  lemma UrlifyBraceExample(v: string)
    ensures Urlify("{{{version}}}", v) == "{" + v + "}"
  {
    var t := "{" + Marker + "}";
    assert t == "{{{version}}}";
    assert !MarkerAt(t, 0) by { assert t[2] != Marker[2]; assert t[0..0 + |Marker|][2] == t[2]; }
    UrlifySplice("{", "}", v);
    assert !ContainsMarker("}");
    UrlifyNoMarker("}", v);
  }
}
