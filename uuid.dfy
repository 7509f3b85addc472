/**
 * Identifier generation and recognition (src/javascripts/utils/UUID.js).
 *
 * `UUID()` fills the template "xxxxxxxxxxxx4xxxyxxxxxxxxxxxxxxx" one
 * placeholder at a time: an `x` becomes a random hexadecimal nibble, the `y`
 * becomes a nibble whose two high bits are forced to `10` (the variant field
 * of the version-4 layout in section 4.4 of RFC 4122, written without dashes).
 * The random draws are the parameter `rs`, one nibble per placeholder, in
 * template order.
 *
 * `UUID.isUUID` tests a string against the case-insensitive pattern
 * `^[0-9a-f]{12}4[0-9a-f]{19}$`; the pattern is modelled as a sequence of
 * single-character atoms matched against the whole string.
 */
module Uuid {
  import opened Basics

  /** A value of `Math.random() * 16 | 0`. */
  type Nibble = r: int | 0 <= r < 16

  const HexDigits: string := "0123456789abcdef"

  /** The template of UUID.js: `x` and `y` are placeholders. */
  const Template: string := "xxxxxxxxxxxx4xxxyxxxxxxxxxxxxxxx"

  /** Number of placeholders (`x` or `y`) in a template. */
  function Slots(t: string): nat
  {
    if t == [] then 0
    else (if t[0] == 'x' || t[0] == 'y' then 1 else 0) + Slots(t[1..])
  }

  /** `v.toString(16)` for a nibble: a lower-case hexadecimal digit. */
  function HexChar(v: Nibble): (c: char)
    ensures '0' <= c <= '9' || 'a' <= c <= 'f'
  {
    HexDigits[v]
  }

  /** `r & 0x3 | 0x8`: keeps the two low bits and sets bit 3. */
  function VariantNibble(r: Nibble): (v: Nibble)
    ensures 8 <= v < 12
  {
    ((r as bv8 & 0x3) | 0x8) as int
  }

  /**
   * `String.prototype.replace` with the global pattern `/[xy]/g` and the
   * per-match callback: placeholders are replaced left to right, the k-th one
   * consuming `rs[k]`; every other character is kept.
   */
  function Fill(t: string, rs: seq<Nibble>): (s: string)
    requires |rs| == Slots(t)
    ensures |s| == |t|
  {
    if t == [] then []
    else if t[0] == 'x' then [HexChar(rs[0])] + Fill(t[1..], rs[1..])
    else if t[0] == 'y' then [HexChar(VariantNibble(rs[0]))] + Fill(t[1..], rs[1..])
    else [t[0]] + Fill(t[1..], rs)
  }

  /** ASCII `toLowerCase`; every character `Fill` produces is ASCII. */
  function LowerAscii(s: string): (r: string)
    ensures |r| == |s|
    ensures forall i :: 0 <= i < |s| && !('A' <= s[i] <= 'Z') ==> r[i] == s[i]
  {
    seq(|s|, i requires 0 <= i < |s| => if 'A' <= s[i] <= 'Z' then (s[i] as int + 32) as char else s[i])
  }

  /** `UUID()`, with the random draws (one per placeholder, 31 in all) as input. */
  function UUID(rs: seq<Nibble>): (s: string)
    requires |rs| == 31
  {
    TemplateSlots();
    LowerAscii(Fill(Template, rs))
  }

  // ---------------------------------------------------------------------------
  // The recogniser

  /** One atom of a regular expression that matches exactly one character. */
  datatype Atom = HexClass | Literal(c: char)

  /** `^[0-9a-f]{12}4[0-9a-f]{19}$` as a sequence of atoms. */
  const Pattern: seq<Atom> := HexRun(12) + [Literal('4')] + HexRun(19)

  /** `[0-9a-f]{n}`. */
  function HexRun(n: nat): (p: seq<Atom>)
    ensures |p| == n && forall i :: 0 <= i < n ==> p[i] == HexClass
  {
    if n == 0 then [] else [HexClass] + HexRun(n - 1)
  }

  /**
   * Canonicalize of a non-unicode, case-insensitive regular expression
   * (section 22.2.2.7.3 of ECMA-262): upper-case conversion, except that a
   * character outside ASCII never maps into ASCII. Only ASCII letters are
   * converted here; every other character is its own canonical form, which
   * gives the same verdicts for a pattern whose characters are all ASCII.
   */
  function Canonicalize(c: char): char
  {
    if 'a' <= c <= 'z' then (c as int - 32) as char else c
  }

  /** Whether an atom matches a character under the `i` flag. */
  predicate AtomMatches(a: Atom, c: char)
  {
    match a
    case HexClass => exists k :: 0 <= k < |HexDigits| && Canonicalize(HexDigits[k]) == Canonicalize(c)
    case Literal(l) => Canonicalize(l) == Canonicalize(c)
  }

  /** Anchored match of a sequence of single-character atoms. */
  predicate MatchesAll(p: seq<Atom>, s: string)
  {
    if p == [] then s == []
    else s != [] && AtomMatches(p[0], s[0]) && MatchesAll(p[1..], s[1..])
  }

  /** `UUID.isUUID(str)`; `None` stands for a missing (null or undefined) argument. */
  predicate IsUUID(str: Option<string>)
  {
    match str
    case None => false
    case Some(s) => if s == "" then false else MatchesAll(Pattern, s)
  }

  // ---------------------------------------------------------------------------
  // Properties

  predicate IsHexEitherCase(c: char)
  {
    '0' <= c <= '9' || 'a' <= c <= 'f' || 'A' <= c <= 'F'
  }

  /** The layout the generator promises: 32 lower-case hex digits, version 4, variant 10xx. */
  predicate IsV4Layout(s: string)
  {
    && |s| == 32
    && (forall i :: 0 <= i < 32 ==> s[i] in HexDigits)
    && s[12] == '4'
    && s[16] in "89ab"
  }

  lemma {:induction false} SlotsAppend(a: string, b: string)
    ensures Slots(a + b) == Slots(a) + Slots(b)
  {
    if a != [] {
      assert (a + b)[1..] == a[1..] + b;
      assert (a + b)[0] == a[0];
      SlotsAppend(a[1..], b);
    } else {
      assert a + b == b;
    }
  }

  /** The template character at position `i`. */
  function TemplateCharAt(i: nat): char
  {
    if i == 12 then '4' else if i == 16 then 'y' else 'x'
  }

  lemma TemplateChars()
    ensures |Template| == 32
    ensures forall i :: 0 <= i < 32 ==> Template[i] == TemplateCharAt(i)
  {
  }

  lemma SlotsSnoc(t: string, i: nat)
    requires i < |t|
    ensures Slots(t[..i + 1]) == Slots(t[..i]) + (if t[i] == 'x' || t[i] == 'y' then 1 else 0)
  {
    assert t[..i + 1] == t[..i] + [t[i]];
    SlotsAppend(t[..i], [t[i]]);
    assert [t[i]][1..] == [];
  }

  /** The slot index of template position `i`: placeholders strictly before it. */
  function SlotOf(i: nat): nat
  {
    if i <= 12 then i else i - 1
  }

  lemma {:induction false} TemplatePrefixSlots(i: nat)
    requires i <= 32
    ensures Slots(Template[..i]) == SlotOf(i)
  {
    TemplateChars();
    if i == 0 {
      assert Template[..0] == [];
    } else {
      TemplatePrefixSlots(i - 1);
      SlotsSnoc(Template, i - 1);
    }
  }

  /** The template has 32 characters of which 31 are placeholders. */
  lemma TemplateSlots()
    ensures |Template| == 32 && Slots(Template) == 31
  {
    TemplateChars();
    TemplatePrefixSlots(32);
    assert Template[..32] == Template;
  }

  /** `Fill` read one position at a time: position `i` uses draw number `Slots(t[..i])`. */
  lemma {:induction false} FillAt(t: string, rs: seq<Nibble>, i: nat)
    requires |rs| == Slots(t) && i < |t|
    ensures Slots(t[..i]) + (if t[i] == 'x' || t[i] == 'y' then 1 else 0) <= |rs|
    ensures Fill(t, rs)[i] ==
      if t[i] == 'x' then HexChar(rs[Slots(t[..i])])
      else if t[i] == 'y' then HexChar(VariantNibble(rs[Slots(t[..i])]))
      else t[i]
  {
    if i == 0 {
      assert t[..0] == [];
    } else {
      var t1 := t[1..];
      var rs1 := if t[0] == 'x' || t[0] == 'y' then rs[1..] else rs;
      FillAt(t1, rs1, i - 1);
      assert Fill(t, rs)[i] == Fill(t1, rs1)[i - 1];
      assert t[..i] == [t[0]] + t1[..i - 1];
      SlotsAppend([t[0]], t1[..i - 1]);
      assert [t[0]][1..] == [];
    }
  }

  /** The filled template, by position. */
  lemma FillTemplateAt(rs: seq<Nibble>, i: nat)
    requires |rs| == 31 && i < 32
    ensures Slots(Template) == 31 && |Fill(Template, rs)| == 32
    ensures Fill(Template, rs)[i] ==
      if i == 12 then '4'
      else if i == 16 then HexChar(VariantNibble(rs[15]))
      else HexChar(rs[SlotOf(i)])
  {
    TemplateSlots();
    TemplateChars();
    FillAt(Template, rs, i);
    TemplatePrefixSlots(i);
  }

  /** Every character of a generated identifier, by position. */
  lemma UUIDAt(rs: seq<Nibble>, i: nat)
    requires |rs| == 31 && i < 32
    ensures |UUID(rs)| == 32
    ensures UUID(rs)[i] ==
      if i == 12 then '4'
      else if i == 16 then HexChar(VariantNibble(rs[15]))
      else HexChar(rs[SlotOf(i)])
  {
    FillTemplateAt(rs, i);
  }

  /** The generator always produces the version-4 layout of RFC 4122, in lower case. */
  lemma UUIDIsV4Layout(rs: seq<Nibble>)
    requires |rs| == 31
    ensures IsV4Layout(UUID(rs))
  {
    var s := UUID(rs);
    forall i | 0 <= i < 32 ensures s[i] in HexDigits && (i == 12 ==> s[i] == '4') && (i == 16 ==> s[i] in "89ab") {
      UUIDAt(rs, i);
    }
  }

  function HexValue(c: char): (v: Nibble)
    requires c in HexDigits
    ensures HexChar(v) == c
  {
    if '0' <= c <= '9' then c as int - '0' as int
    else c as int - 'a' as int + 10
  }

  /** The draws that produce a given layout: the inverse of the generator. */
  function Draws(s: string): (rs: seq<Nibble>)
    requires IsV4Layout(s)
    ensures |rs| == 31
  {
    seq(31, k requires 0 <= k < 31 => DrawAt(s, k))
  }

  /** The draw that yields slot `k` of `s`; for the variant slot, the two low bits. */
  function DrawAt(s: string, k: nat): Nibble
    requires IsV4Layout(s) && k < 31
  {
    if k == 15 then (if s[16] == '8' then 0 else if s[16] == '9' then 1 else if s[16] == 'a' then 2 else 3)
    else HexValue(s[if k < 12 then k else k + 1])
  }

  /** One position of the inverse: the draws put back the character they were read from. */
  lemma DrawsAt(s: string, i: nat)
    requires IsV4Layout(s) && i < 32
    ensures UUID(Draws(s))[i] == s[i]
  {
    var rs := Draws(s);
    UUIDAt(rs, i);
    if i == 16 {
      assert rs[15] == DrawAt(s, 15);
      DrawVariant(s);
    } else if i != 12 {
      assert rs[SlotOf(i)] == DrawAt(s, SlotOf(i));
      DrawHex(s, i);
    }
  }

  lemma DrawVariant(s: string)
    requires IsV4Layout(s)
    ensures HexChar(VariantNibble(DrawAt(s, 15))) == s[16]
  {
    var r := DrawAt(s, 15);
    assert VariantNibble(r) == r + 8 by {
      assert r == 0 || r == 1 || r == 2 || r == 3;
    }
  }

  lemma DrawHex(s: string, i: nat)
    requires IsV4Layout(s) && i < 32 && i != 12 && i != 16
    ensures HexChar(DrawAt(s, SlotOf(i))) == s[i]
  {
    assert s[i] in HexDigits;
  }

  /** Conversely, every string of the version-4 layout is produced by some draws. */
  lemma V4LayoutIsGenerated(s: string)
    requires IsV4Layout(s)
    ensures UUID(Draws(s)) == s
  {
    var rs := Draws(s);
    assert |UUID(rs)| == 32 by { UUIDAt(rs, 0); }
    forall i | 0 <= i < 32 ensures UUID(rs)[i] == s[i] {
      DrawsAt(s, i);
    }
  }

  /** The image of the generator is exactly the version-4 layout. */
  lemma UUIDImage(s: string)
    ensures (exists rs: seq<Nibble> :: |rs| == 31 && UUID(rs) == s) <==> IsV4Layout(s)
  {
    if IsV4Layout(s) {
      V4LayoutIsGenerated(s);
      assert |Draws(s)| == 31 && UUID(Draws(s)) == s;
    }
    forall rs: seq<Nibble> | |rs| == 31 && UUID(rs) == s ensures IsV4Layout(s) {
      UUIDIsV4Layout(rs);
    }
  }

  lemma {:induction false} MatchesAllPointwise(p: seq<Atom>, s: string)
    ensures MatchesAll(p, s) <==> |p| == |s| && forall i :: 0 <= i < |p| ==> AtomMatches(p[i], s[i])
  {
    if p != [] && s != [] {
      MatchesAllPointwise(p[1..], s[1..]);
      if |p| == |s| && (forall i :: 0 <= i < |p| ==> AtomMatches(p[i], s[i])) {
        assert AtomMatches(p[0], s[0]);
        forall i | 0 <= i < |p| - 1 ensures AtomMatches(p[1..][i], s[1..][i]) {
          assert AtomMatches(p[i + 1], s[i + 1]);
        }
      }
      if MatchesAll(p, s) {
        forall i | 0 <= i < |p| ensures AtomMatches(p[i], s[i]) {
          if i > 0 { assert p[1..][i - 1] == p[i] && s[1..][i - 1] == s[i]; }
        }
      }
    }
  }

  /** The case-insensitive class `[0-9a-f]` accepts exactly the hex digits of either case. */
  lemma HexClassMatches(c: char)
    ensures AtomMatches(HexClass, c) <==> IsHexEitherCase(c)
  {
    if IsHexEitherCase(c) {
      var k := if '0' <= c <= '9' then c as int - '0' as int
               else if 'a' <= c <= 'f' then c as int - 'a' as int + 10
               else c as int - 'A' as int + 10;
      assert Canonicalize(HexDigits[k]) == Canonicalize(c);
    }
  }

  /** `isUUID` accepts exactly: 12 hex digits, the digit 4, 19 hex digits, letters in either case. */
  lemma IsUUIDExactly(s: string)
    ensures IsUUID(Some(s)) <==>
      |s| == 32 && s[12] == '4' && forall i :: 0 <= i < 32 && i != 12 ==> IsHexEitherCase(s[i])
  {
    MatchesAllPointwise(Pattern, s);
    assert |Pattern| == 32;
    forall i | 0 <= i < 32 && i < |s|
      ensures AtomMatches(Pattern[i], s[i]) <==> if i == 12 then s[i] == '4' else IsHexEitherCase(s[i])
    {
      if i != 12 {
        assert Pattern[i] == HexClass;
        HexClassMatches(s[i]);
      } else {
        assert Pattern[i] == Literal('4');
      }
    }
  }

  /** A missing or empty argument is rejected before the pattern is tried. */
  lemma IsUUIDRejectsMissing()
    ensures !IsUUID(None) && !IsUUID(Some(""))
  {
  }

  /** Whatever the generator produces, the recogniser accepts. */
  lemma GeneratedIsAccepted(rs: seq<Nibble>)
    requires |rs| == 31
    ensures IsUUID(Some(UUID(rs)))
  {
    UUIDIsV4Layout(rs);
    V4LayoutIsAccepted(UUID(rs));
  }

  lemma V4LayoutIsAccepted(s: string)
    requires IsV4Layout(s)
    ensures IsUUID(Some(s))
  {
    forall i | 0 <= i < 32 && i != 12 ensures IsHexEitherCase(s[i]) {
      LowerHexEitherCase(s[i]);
    }
    IsUUIDExactly(s);
  }

  lemma LowerHexEitherCase(c: char)
    requires c in HexDigits
    ensures IsHexEitherCase(c)
  {
  }

  /** Twelve zeros, the digit 4, nineteen zeros: variant digit `0`. */
  const Unproducible: string := Zeros(12) + "4" + Zeros(19)

  function Zeros(n: nat): (s: string)
    ensures |s| == n && forall i :: 0 <= i < n ==> s[i] == '0'
  {
    if n == 0 then [] else "0" + Zeros(n - 1)
  }

  /**
   * The recogniser is looser than the generator: it does not look at the
   * variant digit (index 16), so it accepts strings the generator never
   * produces.
   */
  lemma AcceptedButNeverGenerated()
    ensures IsUUID(Some(Unproducible)) && forall rs: seq<Nibble> :: |rs| == 31 ==> UUID(rs) != Unproducible
  {
    var s := Unproducible;
    UnproducibleChars();
    ZeroVariantAccepted(s);
    forall rs: seq<Nibble> | |rs| == 31 ensures UUID(rs) != s {
      UUIDIsV4Layout(rs);
    }
  }

  /** A string of zeros with the version digit is accepted, and is not of the generator's layout. */
  lemma ZeroVariantAccepted(s: string)
    requires |s| == 32 && s[12] == '4'
    requires forall i :: 0 <= i < 32 && i != 12 ==> s[i] == '0'
    ensures IsUUID(Some(s)) && !IsV4Layout(s)
  {
    IsUUIDExactly(s);
    assert s[16] == '0';
  }

  lemma UnproducibleChars()
    ensures |Unproducible| == 32 && Unproducible[12] == '4'
    ensures forall i :: 0 <= i < 32 && i != 12 ==> Unproducible[i] == '0'
  {
    var z12, z19 := Zeros(12), Zeros(19);
    assert Unproducible == z12 + "4" + z19;
    forall i | 0 <= i < 32 && i != 12 ensures Unproducible[i] == '0' {
      if i > 12 {
        assert Unproducible[i] == z19[i - 13];
      }
    }
  }
}
