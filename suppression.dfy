/**
 * `getShouldSuppressENOENT` (source/internal/utils.ts): whether a missing dictionary file for
 * a locale, or for the global directory, should go unreported.
 */
module Suppression {

  /** `suppress.missingDictionary`: a flag, or the identifiers to suppress. */
  datatype MissingDictionary = Flag(on: bool) | Only(ids: seq<string>)

  function ShouldSuppressENOENT(m: MissingDictionary, id: string): (r: bool)
    ensures m == Flag(true) ==> r
    ensures m == Flag(false) ==> !r
    ensures m.Only? ==> (r <==> id in m.ids)
  {
    if m == Flag(true) then true
    else if m.Only? && id in m.ids then true
    else false
  }

  /** Listing more identifiers never reports more missing files. */
  lemma SuppressionMonotone(ids: seq<string>, more: seq<string>, id: string)
    requires forall x :: x in ids ==> x in more
    ensures ShouldSuppressENOENT(Only(ids), id) ==> ShouldSuppressENOENT(Only(more), id)
  {
  }
}
