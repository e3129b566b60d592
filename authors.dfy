/** The author (or anonymous poster) of a comment, as sent and as stored. */
module Authors {
  import opened Wrappers
  import opened Php

  /** An `author` or `anonym` object of the API; a missing key (or null) is None.
      A missing object is the author with no fields at all. */
  datatype RawAuthor = RawAuthor(
    id: Option<int>,
    name: Option<string>,
    email: Option<string>,
    www: Option<string>,
    avatar: Option<string>,
    provider: Option<string>)
  {
    /** PHP's `empty()` on the object: it has no fields. */
    predicate IsEmpty()
    {
      this == NoAuthor
    }
  }

  const NoAuthor := RawAuthor(None, None, None, None, None, None)

  /** The normalised author written to the `author_*` columns. */
  datatype Author = Author(
    id: Option<int>,
    name: Option<string>,
    email: Option<string>,
    www: Option<string>,
    avatar: Option<string>,
    provider: Option<string>)

  /** Provider recorded for a registered author whose provider field is empty. */
  const NativeProvider := "cackle"

  /**
   * `_getAuthor`: id, name and email are copied; an `empty()` website or avatar
   * becomes null; a provider that is set but empty becomes "cackle", an unset
   * one stays null, any other passes through.
   */
  function GetAuthor(a: RawAuthor): (r: Author)
    ensures r.id == a.id && r.name == a.name && r.email == a.email
    ensures r.www == None <==> Empty(a.www)
    ensures r.www != None ==> r.www == a.www
    ensures r.avatar == None <==> Empty(a.avatar)
    ensures r.avatar != None ==> r.avatar == a.avatar
    ensures r.provider == None <==> a.provider == None
    ensures a.provider == Some("") ==> r.provider == Some(NativeProvider)
    ensures a.provider != Some("") ==> r.provider == a.provider
  {
    Author(
      a.id,
      a.name,
      a.email,
      if Empty(a.www) then None else a.www,
      if Empty(a.avatar) then None else a.avatar,
      match a.provider
      case None => None
      case Some(p) => if p == "" then Some(NativeProvider) else Some(p))
  }

  /** An author read back in the API's shape. */
  function AsRaw(a: Author): RawAuthor
  {
    RawAuthor(a.id, a.name, a.email, a.www, a.avatar, a.provider)
  }

  /** Normalisation is idempotent, and a normalised author never has an empty
      website, avatar or provider. */
  lemma GetAuthorIdempotent(a: RawAuthor)
    ensures GetAuthor(AsRaw(GetAuthor(a))) == GetAuthor(a)
    ensures GetAuthor(a).www != Some("") && GetAuthor(a).avatar != Some("")
    ensures GetAuthor(a).provider != Some("")
  {
  }
}
