/**
 * The `Game` record shared by the store, the cart and the media routes.
 * Only `id`, `price` and `media_urls` are inspected by the modelled logic;
 * the other columns are carried along unchanged.
 */
module Types {
  import opened Wrappers

  datatype Game = Game(
    id: int,
    name: string,
    price: int,
    description: Option<string>,
    mediaUrls: Option<seq<string>>,   // `media_urls: string[] | null`
    url: Option<string>,
    createdAt: string,
    developerId: Option<string>
  )
}
