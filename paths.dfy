/**
 * Paths as the converter sees them (src/index.ts:106-122). A directory is the
 * list of its normalized segments from the root, as path.resolve produces it;
 * a file is a directory plus an entry name. path.join of a directory and an
 * entry name, path.dirname and path.basename then become the constructor and
 * its fields.
 */
module Paths {
  import opened Wrappers
  import opened Formats

  type DirPath = seq<string>

  datatype FilePath = FilePath(dir: DirPath, name: string)

  /** Index of the last '.' in s, if any. */
  function LastDot(s: string): (r: Option<nat>)
    ensures r.Some? ==> r.value < |s|
  {
    if s == [] then None
    else if s[|s| - 1] == '.' then Some(|s| - 1)
    else LastDot(s[..|s| - 1])
  }

  /** LastDot finds a dot, and no dot follows it; None means there is no dot at all. */
  lemma {:induction false} LastDotIsLast(s: string)
    ensures LastDot(s).Some? ==> s[LastDot(s).value] == '.'
    ensures LastDot(s).Some? ==> forall j :: LastDot(s).value < j < |s| ==> s[j] != '.'
    ensures LastDot(s).None? <==> '.' !in s
  {
    if s != [] && s[|s| - 1] != '.' {
      var s' := s[..|s| - 1];
      LastDotIsLast(s');
      assert s == s' + [s[|s| - 1]];
    }
  }

  /**
   * node's path.extname on an entry name: from the last '.' to the end, or ""
   * when there is no dot, the only dot leads the name (".png"), or the name is "..".
   * The extension is empty or a dot followed by dot-free text, and it is a
   * suffix of the name.
   */
  function ExtName(name: string): (e: string)
    ensures e == "" || (e[0] == '.' && '.' !in e[1..])
    ensures |e| <= |name| && e == name[|name| - |e|..]
  {
    LastDotIsLast(name);
    match LastDot(name)
    case None => ""
    case Some(k) => if k == 0 || name == ".." then "" else name[k..]
  }

  /** The lower-cased extension without its dot (`extname(name).slice(1).toLowerCase()`): one component, no capitals. */
  function ExtOf(name: string): (x: string)
    ensures '.' !in x
    ensures forall i :: 0 <= i < |x| ==> !IsUpper(x[i])
  {
    var e := ExtName(name);
    Lower(if e == "" then "" else e[1..])
  }

  /**
   * path.basename(name, path.extname(name)): the name with its extension
   * removed. The name is its stem followed by its extension, and a non-empty
   * name has a non-empty stem.
   */
  function Stem(name: string): (t: string)
    ensures t + ExtName(name) == name
    ensures name != "" ==> t != ""
  {
    match LastDot(name)
    case None => name
    case Some(k) => if k == 0 || name == ".." then name else name[..k]
  }

  /** The locator's test on a file entry (src/index.ts:110-111). */
  predicate Selected(name: string, excludeExt: string) {
    ExtOf(name) in SupportedInputs && ExtOf(name) != excludeExt
  }

  /**
   * destPathFor: same directory, same stem, the target's canonical extension.
   * For an entry name the destination keeps the stem and reads back the
   * canonical extension.
   */
  function DestPathFor(src: FilePath, f: Format): (d: FilePath)
    ensures d.dir == src.dir
    ensures src.name != "" ==>
              && Stem(d.name) == Stem(src.name)
              && ExtName(d.name) == "." + CanonicalExt(f)
              && ExtOf(d.name) == CanonicalExt(f)
  {
    CanonicalExtFacts(f);
    CanonicalExtIsLower(f);
    if src.name != "" then
      StemOfAppended(Stem(src.name), CanonicalExt(f));
      assert ("." + CanonicalExt(f))[1..] == CanonicalExt(f);
      FilePath(src.dir, Stem(src.name) + "." + CanonicalExt(f))
    else
      FilePath(src.dir, Stem(src.name) + "." + CanonicalExt(f))
  }

  /** The last dot of `s + "." + e` is the one just added when `e` has none. */
  lemma {:induction false} LastDotOfAppended(s: string, e: string)
    requires '.' !in e
    ensures LastDot(s + "." + e) == Some(|s|)
  {
    if e == [] {
      assert s + "." + e == s + ".";
    } else {
      var t := s + "." + e;
      var e' := e[..|e| - 1];
      assert t[..|t| - 1] == s + "." + e';
      assert e[|e| - 1] in e;
      LastDotOfAppended(s, e');
    }
  }

  /** Appending a dot and a dot-free extension to a non-empty stem is undone by Stem and read back by ExtName. */
  lemma StemOfAppended(s: string, e: string)
    requires s != "" && e != "" && '.' !in e
    ensures ExtName(s + "." + e) == "." + e
    ensures Stem(s + "." + e) == s
  {
    LastDotOfAppended(s, e);
    var t := s + "." + e;
    assert t != ".." by {
      assert |t| >= 3;
    }
    assert t[|s|..] == "." + e;
  }

  /** The locator never selects a destination again: its extension is the excluded one. */
  lemma DestNotSelected(src: FilePath, f: Format)
    requires src.name != ""
    ensures !Selected(DestPathFor(src, f).name, CanonicalExt(f))
  {
  }

  lemma CanonicalExtIsLower(f: Format)
    ensures Lower(CanonicalExt(f)) == CanonicalExt(f)
  {
    CanonicalExtFacts(f);
    SupportedTokensAreLower();
  }

  /** destPathFor applied to its own output gives the same path. */
  lemma DestPathIdempotent(src: FilePath, f: Format)
    requires src.name != ""
    ensures DestPathFor(DestPathFor(src, f), f) == DestPathFor(src, f)
  {
    DestNotSelected(src, f);
  }

  /** A selected name is never empty: the empty name has no extension. */
  lemma SelectedNonEmpty(name: string, excludeExt: string)
    requires Selected(name, excludeExt)
    ensures name != ""
  {
  }

  /** A file the locator selects is never its own destination. */
  lemma SelectedIsNotDest(src: FilePath, g: FilePath, f: Format)
    requires g.name != ""
    requires Selected(src.name, CanonicalExt(f))
    ensures src != DestPathFor(g, f)
  {
    DestNotSelected(g, f);
  }

  /**
   * The exclusion is by canonical extension only: a ".jpeg" file is still
   * selected when the target is jpeg, and a ".tif" file when it is tiff; each
   * goes to a sibling ".jpg" / ".tiff" file.
   */
  lemma AliasExtensionsStillSelected(src: FilePath)
    requires src.name != ""
    requires ExtOf(src.name) == "jpeg" || ExtOf(src.name) == "tif"
    ensures ExtOf(src.name) == "jpeg" ==> Selected(src.name, CanonicalExt(Jpeg)) && DestPathFor(src, Jpeg) != src
    ensures ExtOf(src.name) == "tif" ==> Selected(src.name, CanonicalExt(Tiff)) && DestPathFor(src, Tiff) != src
  {
    DestNotSelected(src, Jpeg);
    DestNotSelected(src, Tiff);
  }
}
