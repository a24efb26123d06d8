/**
 * `extract_proper_name_from_url`: chooses between the name the Wikipedia URL
 * spells and the text of the link that pointed to it.
 */
module ProperName {
  import opened Wrappers
  import opened Text
  import opened NameCleaning

  /** The fortification types the choice rule looks for, in the order it scans them. */
  const FortTypes: seq<string> := [
    "castelo", "forte", "fortaleza", "muralha", "muralhas", "torre",
    "cidadela", "fortificação", "bateria", "baluarte", "atalaia",
    "reduto", "praça-forte"
  ]

  /** The type word `t` is in the lower-cased URL name `cleanLower` but not in the lower-cased link text. */
  predicate TypeAdded(cleanLower: string, currentLower: string, t: string) {
    Contains(cleanLower, t) && !Contains(currentLower, t)
  }

  /** Some fortification type occurs in the lower-cased URL name but not in the lower-cased link text. */
  predicate AddsFortType(clean: string, current: string) {
    exists k | 0 <= k < |FortTypes| :: TypeAdded(Lower(clean), Lower(current), FortTypes[k])
  }

  /** The link text, lower-cased, is part of the lower-cased URL name, and the URL name is longer. */
  predicate ExtendsName(clean: string, current: string) {
    Contains(Lower(clean), Lower(current)) && |clean| > |current|
  }

  /**
   * `extract_proper_name_from_url(url, current_name)`. `unquote` stands for
   * `urllib.parse.unquote`; it yields `None` where the body of the `try` block
   * raises, and then the link text is kept.
   */
  method ExtractProperNameFromUrl(url: string, current: string, unquote: string -> Option<string>)
    returns (name: string)
    ensures name == current || (unquote(url).Some? && name == CleanName(unquote(url).value))
    ensures unquote(url).None? ==> name == current
    ensures unquote(url).Some? ==>
      var clean := CleanName(unquote(url).value);
      && (AddsFortType(clean, current) ==> name == clean)
      && (ExtendsName(clean, current) ==> name == clean)
      && (!AddsFortType(clean, current) && !ExtendsName(clean, current) ==> name == current)
  {
    var decoded := unquote(url);
    if decoded.None? {
      return current;
    }
    var clean := CleanName(decoded.value);
    var useUrlName := AddsTypeWord(Lower(clean), Lower(current));
    if Contains(Lower(clean), Lower(current)) && |clean| > |current| {
      useUrlName := true;
    }
    if useUrlName {
      return clean;
    }
    return current;
  }

  /**
   * The `for ... break` loop of `extract_proper_name_from_url`: scans the
   * fortification types in order and stops at the first one the URL name adds.
   */
  method AddsTypeWord(cleanLower: string, currentLower: string) returns (found: bool)
    ensures found <==> exists k | 0 <= k < |FortTypes| :: TypeAdded(cleanLower, currentLower, FortTypes[k])
  {
    found := false;
    var i := 0;
    while i < |FortTypes|
      invariant 0 <= i <= |FortTypes|
      invariant forall k | 0 <= k < i :: !TypeAdded(cleanLower, currentLower, FortTypes[k])
    {
      if TypeAdded(cleanLower, currentLower, FortTypes[i]) {
        found := true;
        break;
      }
      i := i + 1;
    }
  }
}
