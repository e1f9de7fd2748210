/** Image formats, format tokens and extension sets of the converter (src/index.ts:7-13, 72-75). */
module Formats {
  /** The five target formats once the "jpg" alias has been collapsed. */
  datatype Format = Jpeg | Png | Webp | Avif | Tiff

  /** The format's own name, as printed and as used in a destination extension. */
  function Name(f: Format): string {
    match f
    case Jpeg => "jpeg"
    case Png => "png"
    case Webp => "webp"
    case Avif => "avif"
    case Tiff => "tiff"
  }

  /** Tokens accepted as the first argument (after lower-casing). */
  const SupportedOutputs: seq<string> := ["jpeg", "jpg", "png", "webp", "avif", "tiff"]

  /** Lower-cased extensions, without the dot, that the locator accepts as input. */
  const SupportedInputs: set<string> := {"jpg", "jpeg", "png", "webp", "avif", "tif", "tiff"}

  /** ASCII lower-casing of one character. */
  function LowerChar(c: char): char {
    if 'A' <= c <= 'Z' then (c as int + 32) as char else c
  }

  predicate IsUpper(c: char) { 'A' <= c <= 'Z' }

  /**
   * Lower-casing of a string: same length, no capital letter left, every
   * other character unchanged, and each capital replaced by its small letter.
   */
  function Lower(s: string): (r: string)
    ensures |r| == |s|
    ensures forall i :: 0 <= i < |r| ==> !IsUpper(r[i])
    ensures forall i :: 0 <= i < |s| && !IsUpper(s[i]) ==> r[i] == s[i]
    ensures forall i :: 0 <= i < |s| && IsUpper(s[i]) ==> r[i] as int == s[i] as int + ('a' as int - 'A' as int)
  {
    seq(|s|, i requires 0 <= i < |s| => LowerChar(s[i]))
  }

  /** Lower-casing twice is lower-casing once. */
  lemma LowerIdempotent(s: string)
    ensures Lower(Lower(s)) == Lower(s)
  {
    assert forall i :: 0 <= i < |s| ==> Lower(Lower(s))[i] == Lower(s)[i];
  }

  /** A string without capitals is its own lower-case form. */
  lemma LowerOfLower(s: string)
    requires forall i :: 0 <= i < |s| ==> !IsUpper(s[i])
    ensures Lower(s) == s
  {
    assert forall i :: 0 <= i < |s| ==> Lower(s)[i] == s[i];
  }

  /** Every format token and input extension is already lower case, so matching after lower-casing can succeed. */
  lemma SupportedTokensAreLower()
    ensures forall t :: t in SupportedOutputs ==> Lower(t) == t
    ensures forall t :: t in SupportedInputs ==> Lower(t) == t
  {
    forall t | t in SupportedOutputs || t in SupportedInputs ensures Lower(t) == t {
      LowerOfLower(t);
    }
  }

  /** Collapses the "jpg" alias onto jpeg; every other accepted token names its own format. */
  function NormalizeFormat(token: string): (f: Format)
    requires token in SupportedOutputs
    ensures Name(f) == (if token == "jpg" then "jpeg" else token)
  {
    match token
    case "jpg" => Jpeg
    case "jpeg" => Jpeg
    case "png" => Png
    case "webp" => Webp
    case "avif" => Avif
    case _ => Tiff
  }

  /** Every format's own name is accepted and normalizes back to that format. */
  lemma NameRoundTrip(f: Format)
    ensures Name(f) in SupportedOutputs && NormalizeFormat(Name(f)) == f
  {
  }

  /**
   * The extension a converted file gets and that the locator skips:
   * "jpg" for jpeg, the format's name otherwise.
   */
  function CanonicalExt(f: Format): string {
    if f == Jpeg then "jpg" else Name(f)
  }

  /**
   * The canonical extension is itself an accepted input extension and format
   * token, normalizes back to its format, and is a non-empty single component.
   */
  lemma CanonicalExtFacts(f: Format)
    ensures var e := CanonicalExt(f);
            && e in SupportedInputs && e in SupportedOutputs
            && NormalizeFormat(e) == f
            && '.' !in e && '/' !in e && e != ""
  {
  }
}
