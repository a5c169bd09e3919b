/**
 * The sector-name normaliser `validate_sector` of app/main.py: an input is
 * lower-cased, stripped of surrounding whitespace, and its spaces and
 * underscores become hyphens; the result is then matched against the fixed
 * list of known sectors.
 */
module Sectors {

  /** The known sectors, in the order the partial match tries them. */
  const ValidSectors: seq<string> := [
    "pharmaceuticals", "technology", "finance", "automotive",
    "retail", "energy", "healthcare", "agriculture", "manufacturing",
    "telecommunications", "real-estate", "education", "tourism"
  ]

  /** The characters Python's `str.strip()` removes (those for which `str.isspace()` holds). */
  predicate IsSpace(c: char)
  {
    || c == ' '
    || '\t' <= c <= '\r'
    || '\U{1C}' <= c <= '\U{1F}'
    || c == '\U{85}'
    || c == '\U{A0}'
    || c == '\U{1680}'
    || '\U{2000}' <= c <= '\U{200A}'
    || c == '\U{2028}'
    || c == '\U{2029}'
    || c == '\U{202F}'
    || c == '\U{205F}'
    || c == '\U{3000}'
  }

  predicate IsUpper(c: char)
  {
    'A' <= c <= 'Z'
  }

  function LowerChar(c: char): char
  {
    if IsUpper(c) then (c as int - 'A' as int + 'a' as int) as char else c
  }

  /** `str.lower()`, on ASCII letters. */
  function Lower(s: string): (r: string)
    ensures |r| == |s|
    ensures forall i :: 0 <= i < |r| ==> !IsUpper(r[i])
    ensures forall i :: 0 <= i < |s| && !IsUpper(s[i]) ==> r[i] == s[i]
    ensures forall i :: 0 <= i < |s| && IsUpper(s[i]) ==> r[i] as int == s[i] as int + 32
  {
    seq(|s|, i requires 0 <= i < |s| => LowerChar(s[i]))
  }

  /** The number of whitespace characters `s` starts with. */
  function LeadingSpaces(s: string): (n: nat)
    ensures n <= |s|
    ensures forall k :: 0 <= k < n ==> IsSpace(s[k])
    ensures n < |s| ==> !IsSpace(s[n])
  {
    if s != [] && IsSpace(s[0]) then 1 + LeadingSpaces(s[1..]) else 0
  }

  /** The number of whitespace characters `s` ends with. */
  function TrailingSpaces(s: string): (n: nat)
    ensures n <= |s|
    ensures forall k :: |s| - n <= k < |s| ==> IsSpace(s[k])
    ensures n < |s| ==> !IsSpace(s[|s| - 1 - n])
  {
    if s != [] && IsSpace(s[|s| - 1]) then 1 + TrailingSpaces(s[..|s| - 1]) else 0
  }

  /** `str.strip()`: the longest middle part of `s` that neither starts nor ends with whitespace. */
  function Strip(s: string): (r: string)
    ensures exists i, j ::
      && 0 <= i <= j <= |s| && r == s[i..j]
      && (forall k :: 0 <= k < i ==> IsSpace(s[k]))
      && (forall k :: j <= k < |s| ==> IsSpace(s[k]))
    ensures r == [] || (!IsSpace(r[0]) && !IsSpace(r[|r| - 1]))
    ensures r == [] <==> forall k :: 0 <= k < |s| ==> IsSpace(s[k])
  {
    var i := LeadingSpaces(s);
    var t := s[i..];
    var r := t[..|t| - TrailingSpaces(t)];
    assert r == s[i..i + |r|];
    r
  }

  /** `.replace(" ", "-").replace("_", "-")`. */
  function Hyphenate(s: string): (r: string)
    ensures |r| == |s|
    ensures forall i :: 0 <= i < |r| ==> r[i] != ' ' && r[i] != '_'
    ensures forall i :: 0 <= i < |s| && s[i] != ' ' && s[i] != '_' ==> r[i] == s[i]
    ensures forall i :: 0 <= i < |s| && (s[i] == ' ' || s[i] == '_') ==> r[i] == '-'
  {
    seq(|s|, i requires 0 <= i < |s| => if s[i] == ' ' || s[i] == '_' then '-' else s[i])
  }

  /** A name in normal form: no upper-case letter, no space or underscore, no surrounding whitespace. */
  predicate IsNormal(s: string)
  {
    && (forall i :: 0 <= i < |s| ==> !IsUpper(s[i]) && s[i] != ' ' && s[i] != '_')
    && (s == [] || (!IsSpace(s[0]) && !IsSpace(s[|s| - 1])))
  }

  /** The normalisation of lines 29-30 of app/main.py. */
  function Normalize(s: string): (r: string)
    ensures IsNormal(r)
  {
    var stripped := Strip(Lower(s));
    assert forall k :: 0 <= k < |stripped| ==> !IsUpper(stripped[k]);
    Hyphenate(stripped)
  }

  /** A name already in normal form is its own normalisation. */
  lemma NormalizeFixesNormal(s: string)
    requires IsNormal(s)
    ensures Normalize(s) == s
  {
  }

  /** Normalisation is idempotent. */
  lemma NormalizeIdempotent(s: string)
    ensures Normalize(Normalize(s)) == Normalize(s)
  {
  }

  /** `needle` is a prefix of `hay`. */
  predicate IsPrefix(needle: string, hay: string)
  {
    |needle| <= |hay| && hay[..|needle|] == needle
  }

  /** Python's `needle in hay` on strings. */
  predicate IsSubstring(needle: string, hay: string)
    ensures IsPrefix(needle, hay) ==> IsSubstring(needle, hay)
    ensures IsSubstring(needle, hay) ==> |needle| <= |hay|
    decreases |hay|
  {
    IsPrefix(needle, hay) || (hay != [] && IsSubstring(needle, hay[1..]))
  }

  /** `needle` occurs in `hay` at offset `i`. */
  predicate OccursAt(needle: string, hay: string, i: int)
  {
    0 <= i && i + |needle| <= |hay| && hay[i..i + |needle|] == needle
  }

  /** `IsSubstring` finds `needle` exactly when it occurs at some offset of `hay`. */
  lemma {:induction false} SubstringAt(needle: string, hay: string)
    ensures IsSubstring(needle, hay) <==> exists i :: OccursAt(needle, hay, i)
    decreases |hay|
  {
    if IsPrefix(needle, hay) {
      assert OccursAt(needle, hay, 0);
    } else if hay != [] {
      SubstringAt(needle, hay[1..]);
      if IsSubstring(needle, hay[1..]) {
        var i :| OccursAt(needle, hay[1..], i);
        assert OccursAt(needle, hay, i + 1);
      }
      if exists i :: OccursAt(needle, hay, i) {
        var i :| OccursAt(needle, hay, i);
        assert i != 0;
        assert OccursAt(needle, hay[1..], i - 1);
      }
    }
  }

  /** The partial-match test of line 38: one name occurs inside the other. */
  predicate Matches(entry: string, name: string)
  {
    IsSubstring(entry, name) || IsSubstring(name, entry)
  }

  /** The index of the first entry that matches `name`, or `|entries|` when none does. */
  function FirstMatchIndex(entries: seq<string>, name: string): (k: nat)
    ensures k <= |entries|
    ensures forall j :: 0 <= j < k ==> !Matches(entries[j], name)
    ensures k < |entries| ==> Matches(entries[k], name)
  {
    if entries == [] then 0
    else if Matches(entries[0], name) then 0
    else 1 + FirstMatchIndex(entries[1..], name)
  }

  predicate IsFirstMatch(entries: seq<string>, k: int, name: string)
  {
    0 <= k < |entries| && Matches(entries[k], name) && forall j :: 0 <= j < k ==> !Matches(entries[j], name)
  }

  /** A lower-case word: letters a to z and hyphens only. */
  predicate IsWord(s: string)
  {
    forall c :: c in s ==> 'a' <= c <= 'z' || c == '-'
  }

  lemma WordIsNormal(s: string)
    requires IsWord(s)
    ensures IsNormal(s)
  {
    assert forall i :: 0 <= i < |s| ==> s[i] in s;
  }

  /** Every known sector is in normal form. */
  lemma ValidSectorsAreNormal()
    ensures forall e :: e in ValidSectors ==> IsNormal(e)
  {
    assert forall e :: e in ValidSectors ==> IsWord(e);
    forall e | e in ValidSectors
      ensures IsNormal(e)
    {
      WordIsNormal(e);
    }
  }

  /**
   * The matching of lines 33-42 over any list of names: an exact member is
   * returned as it is, otherwise the first entry that matches, otherwise
   * `name` itself.
   */
  function Resolve(entries: seq<string>, name: string): (r: string)
    ensures r in entries || r == name
    ensures name in entries ==> r == name
    ensures name !in entries ==>
      || (exists k :: IsFirstMatch(entries, k, name) && r == entries[k])
      || ((forall j :: 0 <= j < |entries| ==> !Matches(entries[j], name)) && r == name)
  {
    if name in entries then name
    else
      var k := FirstMatchIndex(entries, name);
      if k < |entries| then entries[k] else name
  }

  /** `validate_sector`: a known sector, or the normalised input itself. */
  function ValidateSector(sector: string): (r: string)
    ensures IsNormal(r)
    ensures r in ValidSectors || r == Normalize(sector)
  {
    ValidSectorsAreNormal();
    Resolve(ValidSectors, Normalize(sector))
  }

  /** A known sector name is accepted as it is. */
  lemma KnownSectorKept(sector: string)
    requires sector in ValidSectors
    ensures ValidateSector(sector) == sector
  {
    ValidSectorsAreNormal();
    NormalizeFixesNormal(sector);
  }

  /** Validating a validated name gives the same name. */
  lemma ValidateSectorIdempotent(sector: string)
    ensures ValidateSector(ValidateSector(sector)) == ValidateSector(sector)
  {
    var r := ValidateSector(sector);
    if r in ValidSectors {
      KnownSectorKept(r);
    } else {
      NormalizeFixesNormal(r);
    }
  }

  /** An empty or all-whitespace name normalises to "", which occurs in the first known sector. */
  lemma BlankSectorIsFirst(sector: string)
    requires forall i :: 0 <= i < |sector| ==> IsSpace(sector[i])
    ensures ValidateSector(sector) == "pharmaceuticals"
  {
  }
}
