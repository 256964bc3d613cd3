/** The records the browser receives from the API (`types.ts`). Optional
    fields are `Option`s. A news item's `postedAt` is held as the
    millisecond value `new Date(postedAt).getTime()` gives for it. */
module ClientTypes {
  import opened Basics

  datatype MenuItem = MenuItem(
    id: int,
    title: string,
    price: int,
    imageURLs: seq<string>,
    calories: Option<int>,
    description: Option<string>,
    category: string,
    createdAt: string,
    updatedAt: string)

  datatype NewsItem = NewsItem(
    id: int,
    title: string,
    preview: Option<string>,
    description: Option<string>,
    imageURLs: seq<string>,
    createdAt: string,
    updatedAt: string,
    postedAt: int)
}
