/** What the backend handlers share: the three tables, the in-process
    cache (`cache.go`), and the upload directory. A request's database
    statements are numbered from 0 in the order the handler issues them;
    `db(k)` says whether statement k reaches the database. */
module ServerState {
  import opened Basics
  import MenuRepository
  import NewsRepository
  import CategoryRepository
  import Uploads
  import Http

  /** What the cache can hold: the lists the read handlers store. */
  datatype CacheEntry =
    | MenuEntry(items: seq<MenuRepository.MenuItem>)
    | CategoriesEntry(categories: seq<CategoryRepository.Category>)

  type Cache = map<string, CacheEntry>

  const MenuKey := "menu"
  const CategoriesKey := "menu_categories"
  const MenuItemKeyPrefix := "menu_item_"

  datatype State = State(
    menu: MenuRepository.MenuTable,
    news: NewsRepository.NewsTable,
    categories: CategoryRepository.CategoryTable,
    cache: Cache,
    disk: Uploads.Disk)

  /** The table invariants, and each cache key holding the list type its
      reader casts it to. */
  predicate Valid(s: State) {
    && MenuRepository.WellFormed(s.menu)
    && NewsRepository.WellFormed(s.news)
    && CategoryRepository.WellFormed(s.categories)
    && (MenuKey in s.cache ==> s.cache[MenuKey].MenuEntry?)
    && (CategoriesKey in s.cache ==> s.cache[CategoriesKey].CategoriesEntry?)
  }

  /** `Cache.Delete` of each of the keys. */
  function Invalidate(cache: Cache, keys: set<string>): (c: Cache)
    ensures forall k :: k in keys ==> k !in c
    ensures forall k :: k in cache && k !in keys ==> k in c && c[k] == cache[k]
    ensures c.Keys <= cache.Keys
  {
    cache - keys
  }

  /** The result of a handler: what it wrote, and the state after it. */
  datatype Reply<T> = Reply(response: Http.Response<T>, state: State)
}
