/** `is_fortification`: the keyword test that decides whether a link names a fortification. */
module Fortification {
  import opened Text

  /** The keyword list of `is_fortification`, in its order. */
  const Keywords: seq<string> := [
    "castelo", "forte", "fortaleza", "muralha", "torre", "cidadela",
    "fortificação", "bateria", "baluarte", "atalaia", "reduto"
  ]

  /** Python's `any(w in text for w in words)`, scanning `words` in order. */
  function AnyIn(words: seq<string>, text: string): (b: bool)
    ensures b <==> exists k | 0 <= k < |words| :: Contains(text, words[k])
  {
    if words == [] then false
    else if Contains(text, words[0]) then true
    else
      var rest := AnyIn(words[1..], text);
      assert forall k | 1 <= k < |words| :: words[k] == words[1..][k - 1];
      rest
  }

  /**
   * `is_fortification(name, url)`: first the lower-cased name is searched for
   * a keyword, then the lower-cased URL.
   */
  function IsFortification(name: string, url: string): (b: bool)
    ensures b <==> exists k | 0 <= k < |Keywords| ::
      Contains(Lower(name), Keywords[k]) || Contains(Lower(url), Keywords[k])
  {
    if AnyIn(Keywords, Lower(name)) then true
    else AnyIn(Keywords, Lower(url))
  }

  /** Case does not matter: lower-casing the name first gives the same answer. */
  lemma IsFortificationIgnoresCase(name: string, url: string)
    ensures IsFortification(Lower(name), Lower(url)) == IsFortification(name, url)
  {
    LowerIdempotent(name);
    LowerIdempotent(url);
  }
}
