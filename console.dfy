/**
 * The contractor column of the ranking's console table, 68 characters wide. Kotlin
 * measures and cuts a `String` in UTF-16 code units, so the column works on the
 * UTF-16 encoding of the name: a character outside the Basic Multilingual Plane
 * takes two units.
 */
module ConsoleColumn {
  newtype CodeUnit = x: int | 0 <= x < 0x1_0000

  const ColumnWidth := 68
  const Ellipsis: seq<CodeUnit> := [0x2E, 0x2E, 0x2E]
  const KeptUnits := ColumnWidth - |Ellipsis|

  predicate InBmp(c: char)
  {
    c as int < 0x1_0000
  }

  predicate HighSurrogate(u: CodeUnit)
  {
    0xD800 <= u < 0xDC00
  }

  predicate LowSurrogate(u: CodeUnit)
  {
    0xDC00 <= u < 0xE000
  }

  /** One character in UTF-16: itself inside the Basic Multilingual Plane, a surrogate pair outside it. */
  function EncodeChar(c: char): (u: seq<CodeUnit>)
    ensures InBmp(c) ==> u == [c as int as CodeUnit]
    ensures !InBmp(c) ==> |u| == 2 && HighSurrogate(u[0]) && LowSurrogate(u[1])
  {
    if InBmp(c) then [c as int as CodeUnit]
    else
      var v := c as int - 0x1_0000;
      [(0xD800 + v / 0x400) as CodeUnit, (0xDC00 + v % 0x400) as CodeUnit]
  }

  /** The UTF-16 code units of a string, as a Kotlin `String` holds them. */
  function Utf16(s: string): seq<CodeUnit>
  {
    if s == [] then [] else EncodeChar(s[0]) + Utf16(s[1..])
  }

  /** The number of characters outside the Basic Multilingual Plane. */
  function Astral(s: string): nat
  {
    if s == [] then 0 else (if InBmp(s[0]) then 0 else 1) + Astral(s[1..])
  }

  /** `length` counts code units: one per character, plus one more per character outside the plane. */
  lemma {:induction false} Utf16Length(s: string)
    ensures |Utf16(s)| == |s| + Astral(s)
  {
    if s != [] {
      Utf16Length(s[1..]);
    }
  }

  /** A name made of Basic Multilingual Plane characters has one code unit per character, equal to it. */
  lemma {:induction false} Utf16OfBmp(s: string)
    requires forall i :: 0 <= i < |s| ==> InBmp(s[i])
    ensures |Utf16(s)| == |s| && forall i :: 0 <= i < |s| ==> Utf16(s)[i] as int == s[i] as int
  {
    if s != [] {
      assert forall i :: 0 <= i < |s[1..]| ==> s[1..][i] == s[i + 1];
      Utf16OfBmp(s[1..]);
    }
  }

  /** A name wider than the column keeps its first 65 code units and ends in "...". */
  function ShortName(name: seq<CodeUnit>): (r: seq<CodeUnit>)
    ensures |r| <= ColumnWidth
    ensures |name| <= ColumnWidth ==> r == name
    ensures |name| > ColumnWidth ==>
      |r| == ColumnWidth && r[..KeptUnits] == name[..KeptUnits] && r[KeptUnits..] == Ellipsis
  {
    if |name| > ColumnWidth then name[..KeptUnits] + Ellipsis else name
  }

  /** The column cell of a contractor's name. */
  function ContractorCell(contractor: string): seq<CodeUnit>
  {
    ShortName(Utf16(contractor))
  }

  /** Shortening a name that already fits changes nothing, so shortening twice is shortening once. */
  lemma ShortNameIdempotent(name: seq<CodeUnit>)
    ensures ShortName(ShortName(name)) == ShortName(name)
  {
  }

  /** Two names keep apart on the console when they fit, or differ within their first 65 code units. */
  lemma ShortNamesDiffer(a: seq<CodeUnit>, b: seq<CodeUnit>)
    requires a != b
    requires (|a| <= ColumnWidth && |b| <= ColumnWidth)
      || (|a| > KeptUnits && |b| > KeptUnits && a[..KeptUnits] != b[..KeptUnits])
    ensures ShortName(a) != ShortName(b)
  {
    if |a| > KeptUnits && |b| > KeptUnits && a[..KeptUnits] != b[..KeptUnits] {
      var ra, rb := ShortName(a), ShortName(b);
      if |a| <= ColumnWidth && |b| <= ColumnWidth {
      } else if |a| > ColumnWidth && |b| > ColumnWidth {
        assert ra[..KeptUnits] != rb[..KeptUnits];
      } else {
        assert ra[..KeptUnits] == a[..KeptUnits];
        assert rb[..KeptUnits] == b[..KeptUnits];
      }
    }
  }

  /** A name of Basic Multilingual Plane characters is kept exactly when it has at most 68 characters. */
  lemma BmpNameKept(contractor: string)
    requires forall i :: 0 <= i < |contractor| ==> InBmp(contractor[i])
    ensures ContractorCell(contractor) == Utf16(contractor) <==> |contractor| <= ColumnWidth
  {
    Utf16OfBmp(contractor);
  }

  /** In a name made only of characters outside the plane, every even code unit opens a surrogate pair. */
  lemma {:induction false} AstralPairs(s: string, k: nat)
    requires forall i :: 0 <= i < |s| ==> !InBmp(s[i])
    requires k < |s|
    ensures |Utf16(s)| == 2 * |s| && HighSurrogate(Utf16(s)[2 * k]) && LowSurrogate(Utf16(s)[2 * k + 1])
  {
    var u := EncodeChar(s[0]);
    var tail := s[1..];
    assert forall i :: 0 <= i < |tail| ==> tail[i] == s[i + 1];
    if k == 0 {
      if tail == [] {
        assert Utf16(s) == u;
      } else {
        AstralPairs(tail, 0);
      }
    } else {
      AstralPairs(tail, k - 1);
    }
  }

  /**
   * A name of 35 or more characters, all outside the plane (70 or more units), is over the column, and
   * its cell cuts the 33rd character in half: the high surrogate at unit 64 is kept
   * and its low surrogate is dropped in favour of "...".
   */
  lemma AstralNameSplitsPair(contractor: string)
    requires |contractor| >= 35
    requires forall i :: 0 <= i < |contractor| ==> !InBmp(contractor[i])
    ensures |Utf16(contractor)| > ColumnWidth
    ensures HighSurrogate(ContractorCell(contractor)[KeptUnits - 1])
    ensures ContractorCell(contractor)[KeptUnits..] == Ellipsis
  {
    AstralPairs(contractor, 32);
    var u, cell := Utf16(contractor), ContractorCell(contractor);
    assert cell[..KeptUnits] == u[..KeptUnits];
    assert cell[KeptUnits - 1] == cell[..KeptUnits][KeptUnits - 1] == u[KeptUnits - 1];
  }
}
