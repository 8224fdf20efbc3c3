/** What the log needs of the page allocator: distinct pages, handed out once. */
module PageSource {
  import opened Wrappers

  class PageSource {
    var free: set<nat>

    constructor (pages: set<nat>)
      ensures free == pages
    {
      free := pages;
    }

    method Alloc() returns (page: Option<nat>)
      modifies this
      ensures page.None? ==> free == old(free) == {}
      ensures page.Some? ==> page.value in old(free) && free == old(free) - {page.value}
    {
      if free == {} {
        return None;
      }
      var p :| p in free;
      free := free - {p};
      page := Some(p);
    }

    method Free(page: nat)
      modifies this
      ensures free == old(free) + {page}
    {
      free := free + {page};
    }
  }
}
