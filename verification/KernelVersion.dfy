/** Kernel version codes: packing, printing and parsing of release strings such as "5.15.0-58-generic". */
module KernelVersion {
  import opened BpfMap

  const U32: nat := 0x1_0000_0000

  predicate IsDigit(c: char) { '0' <= c <= '9' }

  predicate Digits(s: string) {
    forall i :: 0 <= i < |s| ==> IsDigit(s[i])
  }

  /** The number a digit string denotes, of any length. */
  function Decimal(s: string): nat
    requires Digits(s)
  {
    if s == "" then 0 else 10 * Decimal(s[..|s| - 1]) + (s[|s| - 1] as int - '0' as int)
  }

  function Printed(n: nat): (s: string)
    ensures s != "" && Digits(s)
  {
    var last := [('0' as int + n % 10) as char];
    if n < 10 then last else Printed(n / 10) + last
  }

  lemma {:induction false} PrintedDecimal(n: nat)
    ensures Decimal(Printed(n)) == n
  {
    if n >= 10 {
      PrintedDecimal(n / 10);
      assert Printed(n)[..|Printed(n)| - 1] == Printed(n / 10);
    }
  }

  // ---------- version codes ----------

  function VersionCode(major: nat, minor: nat, patch: nat): (v: nat)
    requires major < 256 && minor < 256 && patch < 256
    ensures v < 0x1_00_00_00
  {
    major * 65536 + minor * 256 + patch
  }

  // Shifts and masks of a 32-bit code, truncated to a byte.
  function Major(v: nat): (b: nat) ensures b < 256 { v / 65536 % 256 }
  function Minor(v: nat): (b: nat) ensures b < 256 { v / 256 % 256 }
  function Patch(v: nat): (b: nat) ensures b < 256 { v % 256 }

  function String(v: nat): string {
    Printed(Major(v)) + "." + Printed(Minor(v)) + "." + Printed(Patch(v))
  }

  lemma PartsCode(v: nat)
    requires v < U32
    ensures VersionCode(Major(v), Minor(v), Patch(v)) == v % 0x1_00_00_00
  {
    var v1 := v / 256;
    var v2 := v1 / 256;
    var q := v2 / 256;
    var c, b, a := v % 256, v1 % 256, v2 % 256;
    assert v == 256 * v1 + c && v1 == 256 * v2 + b && v2 == 256 * q + a;
    Quotient(v, 65536, v2, 256 * b + c);
    Quotient(v, 0x1_00_00_00, q, 65536 * a + 256 * b + c);
  }

  lemma Quotient(v: nat, d: nat, q: nat, r: nat)
    requires d == 65536 || d == 0x1_00_00_00
    requires v == q * d + r && r < d
    ensures v / d == q && v % d == r
  {
  }

  // ---------- release strings ----------

  /** End of the longest run of digits that starts at `from`. */
  function RunEnd(s: string, from: nat): (end: nat)
    requires from <= |s|
    ensures from <= end <= |s| && Digits(s[from..end]) && (end < |s| ==> !IsDigit(s[end]))
    decreases |s| - from
  {
    if from < |s| && IsDigit(s[from]) then
      var end := RunEnd(s, from + 1);
      assert s[from..end] == [s[from]] + s[from + 1..end];
      end
    else from
  }

  /** The three groups of the release expression; the third is empty when it did not take part. */
  datatype Groups = Groups(major: string, minor: string, patch: string)

  /** Digits, a dot, digits, perhaps a dot and digits, then anything on the same line. */
  function Match(s: string): (g: Option<Groups>)
    ensures g.Some? ==> Digits(g.value.major) && Digits(g.value.minor) && Digits(g.value.patch)
                        && g.value.major != "" && g.value.minor != ""
  {
    var i := RunEnd(s, 0);
    if i == 0 || i == |s| || s[i] != '.' || '\n' in s then None
    else
      var j := RunEnd(s, i + 1);
      if j == i + 1 then None
      else
        var k := if j < |s| && s[j] == '.' then RunEnd(s, j + 1) else j + 1;
        Some(Groups(s[..i], s[i + 1..j], if j < |s| && s[j] == '.' then s[j + 1..k] else ""))
  }

  /** 8-bit decimal parsing: out-of-range digits give 255 and an error, no digits give 0 and an error. */
  function ParseUint8(s: string): (r: (nat, bool))
    requires Digits(s)
    ensures r.0 < 256
  {
    if s == "" then (0, false) else if Decimal(s) > 255 then (255, false) else (Decimal(s), true)
  }

  /** 4.14 and 4.19 reach patch level 255 early. */
  predicate EarlyClamp(major: nat, minor: nat, patch: nat) {
    (major == 4 && minor == 14 && patch >= 252) || (major == 4 && minor == 19 && patch >= 222)
  }

  /** The code of a release a.b.c: the patch is clamped to 255, early for two series; none if a or b is too big. */
  function ReleaseCode(a: nat, b: nat, c: nat): Option<nat> {
    if a > 255 || b > 255 then None
    else Some(VersionCode(a, b, if c > 255 || EarlyClamp(a, b, c) then 255 else c))
  }

  /** Parsing as one function of the string. */
  function Parsed(s: string): Option<nat> {
    match Match(s)
    case None => None
    case Some(g) => ReleaseCode(Decimal(g.major), Decimal(g.minor), Decimal(g.patch))
  }

  method ParseReleaseString(s: string) returns (r: Option<nat>)
    ensures r == Parsed(s)
  {
    var versionParts := Match(s);
    if versionParts.None? {
      return None;
    }
    var major, ok := Uint8(versionParts.value.major);
    if !ok {
      return None;
    }
    var minor;
    minor, ok := Uint8(versionParts.value.minor);
    if !ok {
      return None;
    }
    var patch;
    patch, ok := Uint8(versionParts.value.patch);
    if major == 4 && minor == 14 && patch >= 252 {
      patch := 255;
    }
    if major == 4 && minor == 19 && patch >= 222 {
      patch := 255;
    }
    return Some(VersionCode(major, minor, patch));
  }

  method Uint8(s: string) returns (n: nat, ok: bool)
    requires Digits(s)
    ensures (n, ok) == ParseUint8(s)
  {
    if s == "" {
      return 0, false;
    }
    n := 0;
    for i := 0 to |s|
      invariant n == Decimal(s[..i])
    {
      assert s[..i + 1][..i] == s[..i];
      n := 10 * n + (s[i] as int - '0' as int);
    }
    assert s[..|s|] == s;
    return if n > 255 then 255 else n, n <= 255;
  }

  lemma {:induction false} RunIs(s: string, from: nat, end: nat)
    requires from <= end <= |s| && Digits(s[from..end]) && (end < |s| ==> !IsDigit(s[end]))
    ensures RunEnd(s, from) == end
    decreases end - from
  {
    if from < end {
      assert s[from] == s[from..end][0];
      assert s[from + 1..end] == s[from..end][1..];
      RunIs(s, from + 1, end);
    }
  }

  /** What a release "a.b.c", or "a.b", matches, with any rest on the same line that does not go on with a digit. */
  lemma MatchThree(a: string, b: string, c: string, rest: string)
    requires Digits(a) && Digits(b) && Digits(c) && a != "" && b != "" && c != ""
    requires '\n' !in rest && (rest != "" ==> !IsDigit(rest[0]))
    ensures Match(a + "." + b + "." + c + rest) == Some(Groups(a, b, c))
  {
    ThreeParts(a, b, c, rest);
    NoNewline(a, b, c, rest);
    MatchParts(a + "." + b + "." + c + rest, a, b, c);
  }

  lemma ThreeParts(a: string, b: string, c: string, rest: string)
    ensures var s := a + "." + b + "." + c + rest;
            var j := |a| + 1 + |b|;
            var k := j + 1 + |c|;
            && s[0..|a|] == a && s[|a|] == '.' && s[|a| + 1..j] == b && s[j] == '.' && s[j + 1..k] == c
            && (k < |s| ==> s[k] == rest[0])
  {
  }

  lemma MatchParts(s: string, a: string, b: string, c: string)
    requires Digits(a) && Digits(b) && Digits(c) && a != "" && b != "" && '\n' !in s
    requires |a| + |b| + |c| + 2 <= |s|
    requires s[0..|a|] == a && s[|a|] == '.' && s[|a| + 1..|a| + 1 + |b|] == b && s[|a| + 1 + |b|] == '.'
    requires var k := |a| + |b| + |c| + 2; s[|a| + |b| + 2..k] == c && (k < |s| ==> !IsDigit(s[k]))
    ensures Match(s) == Some(Groups(a, b, c))
  {
    hide Match, RunEnd, Digits;
    var j := |a| + 1 + |b|;
    RunIs(s, 0, |a|);
    RunIs(s, |a| + 1, j);
    RunIs(s, j + 1, j + 1 + |c|);
    MatchGroups(s, |a|, j, j + 1 + |c|);
    assert s[..|a|] == s[0..|a|];
  }

  lemma MatchGroups(s: string, i: nat, j: nat, k: nat)
    requires 0 < i < |s| && RunEnd(s, 0) == i && s[i] == '.' && '\n' !in s
    requires i + 1 < j < |s| && RunEnd(s, i + 1) == j && s[j] == '.' && RunEnd(s, j + 1) == k
    ensures Match(s) == Some(Groups(s[..i], s[i + 1..j], s[j + 1..k]))
  {
  }

  lemma NoNewline(a: string, b: string, c: string, rest: string)
    requires Digits(a) && Digits(b) && Digits(c) && '\n' !in rest
    ensures '\n' !in a + "." + b + "." + c + rest
  {
    assert '\n' !in a && '\n' !in b && '\n' !in c;
  }

  /** A release "a.b.c" with decimal parts of any length and any rest of the line. */
  datatype Release = Release(a: string, b: string, c: string, rest: string) {
    predicate Valid() {
      && Digits(a) && Digits(b) && Digits(c) && a != "" && b != "" && c != ""
      && '\n' !in rest && (rest != "" ==> !IsDigit(rest[0]))
    }
    function Text(): string { a + "." + b + "." + c + rest }
  }

  /**
   * Parsing a release fails exactly when a or b exceeds 255; otherwise its code is 65536 a + 256 b + c, with c
   * clamped to 255, from 252 on for 4.14 and from 222 on for 4.19.
   */
  lemma FailsExactly(r: Release)
    requires r.Valid()
    ensures CodeOf(Parsed(r.Text()), Decimal(r.a), Decimal(r.b), Decimal(r.c))
  {
    hide Match, Decimal, Digits;
    MatchThree(r.a, r.b, r.c, r.rest);
  }

  predicate CodeOf(code: Option<nat>, a: nat, b: nat, c: nat) {
    if a > 255 || b > 255 then code == None
    else
      var early := (a == 4 && b == 14 && c >= 252) || (a == 4 && b == 19 && c >= 222);
      code == Some(65536 * a + 256 * b + if c > 255 || early then 255 else c)
  }

  /** A release of two parts counts as patch 0, whatever follows that is not a digit or a dot and a digit. */
  lemma TwoParts(a: string, b: string, rest: string)
    requires Digits(a) && Digits(b) && a != "" && b != "" && '\n' !in rest
    requires rest != "" ==> !IsDigit(rest[0]) && (|rest| > 1 && rest[0] == '.' ==> !IsDigit(rest[1]))
    ensures Match(a + "." + b + rest) == Some(Groups(a, b, ""))
    ensures CodeOf(Parsed(a + "." + b + rest), Decimal(a), Decimal(b), 0)
  {
    hide Match, RunEnd, Digits, Decimal;
    var s := a + "." + b + rest;
    var j := |a| + 1 + |b|;
    TwoSlices(a, b, rest);
    NoNewlineInTwo(a, b, rest);
    RunIs(s, 0, |a|);
    RunIs(s, |a| + 1, j);
    if j < |s| && s[j] == '.' {
      NoDigits(s[j + 1..j + 1]);
      RunIs(s, j + 1, j + 1);
    }
    MatchTwoGroups(s, |a|, j);
    assert s[..|a|] == a;
    EmptyDecimal();
  }

  lemma EmptyDecimal()
    ensures Decimal("") == 0
  {
  }

  lemma NoDigits(s: string)
    requires s == ""
    ensures Digits(s)
  {
  }

  lemma TwoSlices(a: string, b: string, rest: string)
    ensures var s := a + "." + b + rest;
            var j := |a| + 1 + |b|;
            && s[0..|a|] == a && s[|a|] == '.' && s[|a| + 1..j] == b
            && (j < |s| ==> rest != "" && s[j] == rest[0])
            && (j + 1 < |s| ==> |rest| > 1 && s[j + 1] == rest[1])
  {
  }

  lemma NoNewlineInTwo(a: string, b: string, rest: string)
    requires Digits(a) && Digits(b) && '\n' !in rest
    ensures '\n' !in a + "." + b + rest
  {
    assert '\n' !in a && '\n' !in b;
  }

  lemma MatchTwoGroups(s: string, i: nat, j: nat)
    requires 0 < i < |s| && RunEnd(s, 0) == i && s[i] == '.' && '\n' !in s
    requires i + 1 < j <= |s| && RunEnd(s, i + 1) == j && (j < |s| && s[j] == '.' ==> RunEnd(s, j + 1) == j + 1)
    ensures Match(s) == Some(Groups(s[..i], s[i + 1..j], ""))
  {
  }

  /** The release expression: digits, a dot, digits, then any rest on the same line. */
  ghost predicate Splits(s: string, a: string, b: string, rest: string) {
    s == a + "." + b + rest && a != "" && b != "" && Digits(a) && Digits(b) && '\n' !in rest
  }

  /** The expression matches exactly the strings that split this way. */
  lemma MatchExactly(s: string)
    ensures Match(s).Some? <==> exists a: string, b: string, rest: string :: Splits(s, a, b, rest)
  {
    if Match(s).Some? {
      var i := RunEnd(s, 0);
      var j := RunEnd(s, i + 1);
      assert s == s[..i] + "." + s[i + 1..j] + s[j..];
      assert s[..i] == s[0..i];
      assert Splits(s, s[..i], s[i + 1..j], s[j..]);
    }
    if a: string, b: string, rest: string :| Splits(s, a, b, rest) {
      TwoSlices(a, b, rest);
      NoNewlineInTwo(a, b, rest);
      RunIs(s, 0, |a|);
      assert s[|a| + 1] == s[|a| + 1..|a| + 1 + |b|][0] == b[0];
    }
  }

  /** Lexicographic order on the numbers (a, b, c). */
  predicate LexLeq(r: Release, r': Release)
    requires r.Valid() && r'.Valid()
  {
    var a, a', b, b' := Decimal(r.a), Decimal(r'.a), Decimal(r.b), Decimal(r'.b);
    a < a' || (a == a' && (b < b' || (b == b' && Decimal(r.c) <= Decimal(r'.c))))
  }

  /** The codes of parsed releases grow with their lexicographic order, in spite of the clamps. */
  lemma Monotone(r: Release, r': Release)
    requires r.Valid() && r'.Valid() && LexLeq(r, r')
    requires Parsed(r.Text()).Some? && Parsed(r'.Text()).Some?
    ensures Parsed(r.Text()).value <= Parsed(r'.Text()).value
  {
    hide Parsed, Decimal, Digits;
    FailsExactly(r);
    FailsExactly(r');
  }

  /** Printing then parsing any 32-bit code: which code comes back. */
  lemma PrintThenParse(v: nat)
    requires v < U32
    ensures CodeOf(Parsed(String(v)), Major(v), Minor(v), Patch(v))
  {
    var a, b, c := Printed(Major(v)), Printed(Minor(v)), Printed(Patch(v));
    assert String(v) == a + "." + b + "." + c + "";
    MatchThree(a, b, c, "");
    PrintedDecimal(Major(v));
    PrintedDecimal(Minor(v));
    PrintedDecimal(Patch(v));
  }

  lemma SmallCode(v: nat)
    ensures v % 0x1_00_00_00 == v <==> v < 0x1_00_00_00
  {
  }

  /** The codes whose patch the early clamp changes. */
  lemma EarlyCodes(code: Option<nat>, a: nat, b: nat, c: nat)
    requires a < 256 && b < 256 && c < 256 && CodeOf(code, a, b, c)
    ensures var v := VersionCode(a, b, c);
            code == Some(v) <==> !(0x04_0E_FC <= v <= 0x04_0E_FE) && !(0x04_13_DE <= v <= 0x04_13_FE)
    ensures code.Some? && code.value < 0x1_00_00_00
  {
  }

  /** The same code comes back exactly below 2^24 and outside 4.14.252 to 254 and 4.19.222 to 254. */
  lemma PrintThenParseExactly(v: nat)
    requires v < U32
    ensures Parsed(String(v)) == Some(v) <==>
            v < 0x1_00_00_00 && !(0x04_0E_FC <= v <= 0x04_0E_FE) && !(0x04_13_DE <= v <= 0x04_13_FE)
  {
    hide Parsed, String, Major, Minor, Patch;
    PrintThenParse(v);
    PartsCode(v);
    SmallCode(v);
    EarlyCodes(Parsed(String(v)), Major(v), Minor(v), Patch(v));
  }
}
