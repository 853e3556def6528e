/**
 * The scheme normalisation applied to a submitted or edited url before it is
 * stored: trim it, and unless it already starts with `http://` or `https://`
 * (in any letter case), put `https://` in front.
 */
module Urls {
  import opened Text

  /** `/^https?:\/\//i` matches. */
  predicate HasScheme(s: string) {
    StartsWithFolded(s, "http://") || StartsWithFolded(s, "https://")
  }

  /** The scheme defaulting of an added or edited url. */
  function NormalizeUrl(raw: string): string {
    var t := Trim(raw);
    if HasScheme(t) then t else "https://" + t
  }

  /**
   * The result always carries a scheme and has no surrounding whitespace; it
   * is the trimmed input exactly when that already carries a scheme, and
   * otherwise the trimmed input behind `https://`.
   */
  lemma NormalizeUrlSpec(raw: string)
    ensures HasScheme(NormalizeUrl(raw))
    ensures IsTrimmed(NormalizeUrl(raw))
    ensures NormalizeUrl(raw) == Trim(raw) <==> HasScheme(Trim(raw))
    ensures NormalizeUrl(raw) != Trim(raw) ==> NormalizeUrl(raw) == "https://" + Trim(raw)
  {
    var t := Trim(raw);
    if !HasScheme(t) {
      assert NormalizeUrl(raw) == "https://" + t;
      SchemePrefixed(t);
    }
  }

  /** `https://` in front of a trimmed url without a scheme gives a trimmed url with one. */
  lemma SchemePrefixed(t: string)
    requires IsTrimmed(t)
    ensures var r := "https://" + t;
      HasScheme(r) && IsTrimmed(r) && r != t
  {
    var r := "https://" + t;
    assert r[..8] == "https://";
    assert r[0] == 'h' && r[|r| - 1] == (if t == [] then '/' else t[|t| - 1]);
    assert |r| == |t| + 8;
  }

  /** Normalising an already normalised url changes nothing. */
  lemma NormalizeUrlIdempotent(raw: string)
    ensures NormalizeUrl(NormalizeUrl(raw)) == NormalizeUrl(raw)
  {
    NormalizeUrlSpec(raw);
    var r := NormalizeUrl(raw);
    assert Trim(r) == r;
  }

  /** A bare host (already trimmed, not starting with `h` in either case) gets `https://` in front. */
  lemma NormalizeBareHost(host: string)
    requires IsTrimmed(host) && host != [] && LowerChar(host[0]) != 'h'
    ensures NormalizeUrl(host) == "https://" + host
  {
    assert Trim(host) == host;
    assert !StartsWithFolded(host, "http://") && !StartsWithFolded(host, "https://");
  }
}
