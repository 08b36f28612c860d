/**
 * The cover image of a game card on the store page:
 * `game.media_urls?.[0] || placeholder`.
 */
module StorePage {
  import opened Wrappers
  import opened Types

  const NoImagePlaceholder: string := "https://placehold.jp/3d405b/ffffff/600x400.png?text=No+Image"

  /** `media_urls?.[0]`: `undefined` for a null list and for an empty one. */
  function FirstMediaUrl(mediaUrls: Option<seq<string>>): (first: Option<string>)
    ensures first.Some? <==> mediaUrls.Some? && |mediaUrls.value| > 0
    ensures first.Some? ==> first.value == mediaUrls.value[0]
  {
    match mediaUrls
    case None => None
    case Some(urls) => if |urls| > 0 then Some(urls[0]) else None
  }

  /** `first || placeholder`: `undefined` and `""` are falsy. */
  function OrPlaceholder(first: Option<string>): (image: string)
    ensures first.Some? && first.value != "" ==> image == first.value
    ensures first.None? || first.value == "" ==> image == NoImagePlaceholder
  {
    if first.Some? && first.value != "" then first.value else NoImagePlaceholder
  }

  /** The image shown on the card. */
  function CoverImage(mediaUrls: Option<seq<string>>): (cover: string)
    ensures mediaUrls.None? ==> cover == NoImagePlaceholder
    ensures mediaUrls == Some([]) ==> cover == NoImagePlaceholder
    ensures mediaUrls.Some? && |mediaUrls.value| > 0 && mediaUrls.value[0] != "" ==>
              cover == mediaUrls.value[0]
    ensures mediaUrls.Some? && |mediaUrls.value| > 0 && mediaUrls.value[0] == "" ==>
              cover == NoImagePlaceholder
  {
    OrPlaceholder(FirstMediaUrl(mediaUrls))
  }

  /** The cover of a game's card. */
  function GameCover(game: Game): (cover: string)
    ensures cover == NoImagePlaceholder || (game.mediaUrls.Some? && cover in game.mediaUrls.value)
  {
    CoverImage(game.mediaUrls)
  }

  /** The cover never depends on any URL after the first. */
  lemma CoverIgnoresLaterUrls(a: seq<string>, b: seq<string>)
    requires |a| > 0 && |b| > 0 && a[0] == b[0]
    ensures CoverImage(Some(a)) == CoverImage(Some(b))
  {
  }
}
