/**
 * File names and paths: pathlib's `Path(folder) / name` for the simple cases,
 * and the country slug `name.replace(' ', '_').lower()` that both the cleaner
 * and the merger put in front of `_core_cpi.csv`.
 */
module Paths {

  /** `str(Path(folder) / name)` for a relative `name`: an empty folder adds nothing,
      a folder ending in a separator gets no second one. */
  function Join(folder: string, name: string): string
  {
    if folder == "" then name
    else if folder[|folder| - 1] == '/' then folder + name
    else folder + "/" + name
  }

  /** The joined path ends with the name, after a prefix fixed by the folder alone. */
  lemma JoinEndsWith(folder: string, name: string)
    ensures var p := Join(folder, name);
            |name| <= |p| && p[|p| - |name|..] == name && |p| - |name| == |Join(folder, "")|
  {
  }

  /** Within one folder, different names give different paths. */
  lemma JoinInjective(folder: string, a: string, b: string)
    requires Join(folder, a) == Join(folder, b)
    ensures a == b
  {
    JoinEndsWith(folder, a);
    JoinEndsWith(folder, b);
    var pa, pb := Join(folder, a), Join(folder, b);
    assert |a| == |b| by {
      assert |pa| - |a| == |pb| - |b|;
    }
    assert a == pa[|pa| - |a|..] == pb[|pb| - |b|..] == b;
  }

  /** `str.replace(' ', '_')`. */
  function ReplaceSpaces(s: string): string
  {
    if s == [] then [] else [if s[0] == ' ' then '_' else s[0]] + ReplaceSpaces(s[1..])
  }

  /** `str.lower()` on ASCII letters. */
  function LowerChar(c: char): char
  {
    if 'A' <= c <= 'Z' then (c as int - 'A' as int + 'a' as int) as char else c
  }

  function AsciiLower(s: string): string
  {
    if s == [] then [] else [LowerChar(s[0])] + AsciiLower(s[1..])
  }

  lemma {:induction false} ReplaceSpacesAt(s: string, i: nat)
    requires i < |s|
    ensures |ReplaceSpaces(s)| == |s|
    ensures ReplaceSpaces(s)[i] == if s[i] == ' ' then '_' else s[i]
    decreases |s|
  {
    if i == 0 {
      ReplaceSpacesLength(s);
    } else {
      ReplaceSpacesAt(s[1..], i - 1);
    }
  }

  lemma {:induction false} ReplaceSpacesLength(s: string)
    ensures |ReplaceSpaces(s)| == |s|
    decreases |s|
  {
    if s != [] {
      ReplaceSpacesLength(s[1..]);
    }
  }

  lemma {:induction false} AsciiLowerLength(s: string)
    ensures |AsciiLower(s)| == |s|
    decreases |s|
  {
    if s != [] {
      AsciiLowerLength(s[1..]);
    }
  }

  lemma {:induction false} AsciiLowerAt(s: string, i: nat)
    requires i < |s|
    ensures |AsciiLower(s)| == |s|
    ensures AsciiLower(s)[i] == LowerChar(s[i])
    decreases |s|
  {
    if i == 0 {
      AsciiLowerLength(s);
    } else {
      AsciiLowerAt(s[1..], i - 1);
    }
  }

  /** The country part of a cleaned file's name. */
  function Slug(name: string): string
  {
    AsciiLower(ReplaceSpaces(name))
  }

  /** Character by character, the slug maps a space to `_` and an upper-case ASCII
      letter to its lower-case form, and keeps every other character. */
  lemma SlugAt(name: string, i: nat)
    requires i < |name|
    ensures |Slug(name)| == |name|
    ensures Slug(name)[i] == if name[i] == ' ' then '_' else LowerChar(name[i])
  {
    ReplaceSpacesAt(name, i);
    AsciiLowerAt(ReplaceSpaces(name), i);
  }

  /** A slug has no spaces and no upper-case ASCII letters. */
  lemma SlugIsNormal(name: string)
    ensures |Slug(name)| == |name|
    ensures forall i :: 0 <= i < |Slug(name)| ==> Slug(name)[i] != ' ' && !('A' <= Slug(name)[i] <= 'Z')
  {
    ReplaceSpacesLength(name);
    AsciiLowerLength(ReplaceSpaces(name));
    forall i | 0 <= i < |Slug(name)|
      ensures Slug(name)[i] != ' ' && !('A' <= Slug(name)[i] <= 'Z')
    {
      SlugAt(name, i);
    }
  }

  /** `f"{country.replace(' ', '_').lower()}_core_cpi.csv"`. */
  function CountryFileName(country: string): string
  {
    Slug(country) + "_core_cpi.csv"
  }
}
