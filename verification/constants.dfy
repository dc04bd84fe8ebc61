/** The limits the validators enforce (src/core/constants.ts). */
module Constants {

  /** Maximum length of a video title, in UTF-16 code units. */
  const MaxTitleLength: nat := 40

  /** Maximum length of an author name, in UTF-16 code units. */
  const MaxAuthorLength: nat := 20

  /** Smallest accepted age restriction. */
  const MinAgeRestriction: int := 1

  /** Largest accepted age restriction. */
  const MaxAgeRestriction: int := 18
}
