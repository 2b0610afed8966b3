/** A page of results together with the size of the source it was cut from
    (namespace Force.Linq.Pagination).

    C# PagedEnumerable<T> derives from the untyped PagedEnumerable and hides
    its Items property with a typed one of the same name. Here the typed
    class holds its untyped part as the object `base`, so the two stored item
    sequences stay two separate fields, as in the C# class. A null reference
    is None; enumerating a null Items is a NullReference failure. */
module Pagination {
  import opened Wrappers
  import opened MachineInts

  /** The items an enumerator over `items` yields: all of them, in order, or
      a failure when the reference is null. */
  function Enumerate<T>(items: Option<seq<T>>): (r: Result<seq<T>, Failure>)
    ensures r.Err? <==> items.None?
    ensures r.Ok? ==> r.value == items.value
  {
    match items
    case None => Err(NullReference)
    case Some(s) => Ok(s)
  }

  /** The untyped PagedEnumerable. Both properties have protected setters. */
  class PagedEnumerable<T> {
    var items: Option<seq<T>>
    var total: int64

    /** PagedEnumerable(items, total): both are stored as given; nothing
        relates the total to the number of items. */
    constructor (items: Option<seq<T>>, total: int64)
      ensures this.items == items && this.total == total
    {
      this.total := total;
      this.items := items;
    }

    /** GetEnumerator(): enumerates the stored items. */
    method GetEnumerator() returns (r: Result<seq<T>, Failure>)
      ensures r.Err? <==> items.None?
      ensures r.Err? ==> r.error == NullReference
      ensures r.Ok? ==> r.value == items.value
    {
      r := Enumerate(items);
    }
  }

  /** PagedEnumerable<T>: the untyped part `base` plus the get-only typed
      Items, which only the items-and-total constructor assigns. */
  class TypedPagedEnumerable<T> {
    const base: PagedEnumerable<T>
    const items: Option<seq<T>>

    /** PagedEnumerable(queryable, paging). `paginate` is the page that
        Paginate(paging) cuts from the query, materialised once; the total is
        the count of the whole query, whatever the paging. The typed Items is
        never assigned and stays null. */
    constructor FromQuery(queryable: seq<T>, paginate: seq<T> -> seq<T>)
      requires |queryable| <= Int32Max
      ensures fresh(base)
      ensures base.items == Some(paginate(queryable))
      ensures base.total as int == |queryable|
      ensures items == None
    {
      var page := paginate(queryable);
      var count := |queryable| as int64;
      base := new PagedEnumerable(Some(page), count);
      items := None;
    }

    /** PagedEnumerable(items, total): the same reference becomes both the
        untyped and the typed Items; the total is stored as given. */
    constructor (items: Option<seq<T>>, total: int64)
      ensures fresh(base)
      ensures base.items == items && this.items == items
      ensures base.total == total
    {
      base := new PagedEnumerable(items, total);
      this.items := items;
    }

    /** The inherited untyped GetEnumerator(): enumerates the base Items. */
    method GetUntypedEnumerator() returns (r: Result<seq<T>, Failure>)
      ensures r.Err? <==> base.items.None?
      ensures r.Err? ==> r.error == NullReference
      ensures r.Ok? ==> r.value == base.items.value
    {
      r := base.GetEnumerator();
    }

    /** The typed GetEnumerator(): enumerates the typed Items. */
    method GetEnumerator() returns (r: Result<seq<T>, Failure>)
      ensures r.Err? <==> items.None?
      ensures r.Err? ==> r.error == NullReference
      ensures r.Ok? ==> r.value == items.value
    {
      r := Enumerate(items);
    }
  }

  /** A page built from a query: the untyped enumeration yields the page and
      the total is the size of the whole query, but the typed enumeration
      dereferences the unassigned typed Items and fails. */
  method QueryPage<T>(queryable: seq<T>, paginate: seq<T> -> seq<T>)
    returns (untyped: Result<seq<T>, Failure>, typed: Result<seq<T>, Failure>, total: int64)
    requires |queryable| <= Int32Max
    ensures untyped == Ok(paginate(queryable))
    ensures typed == Err(NullReference)
    ensures total as int == |queryable|
  {
    var p := new TypedPagedEnumerable.FromQuery(queryable, paginate);
    untyped := p.GetUntypedEnumerator();
    typed := p.GetEnumerator();
    total := p.base.total;
  }

  /** A page built from items and a total: both enumerations yield the same
      items, in order, and the total is the one supplied. */
  method ItemsPage<T>(items: seq<T>, total: int64)
    returns (untyped: Result<seq<T>, Failure>, typed: Result<seq<T>, Failure>, stored: int64)
    ensures untyped == Ok(items) && typed == Ok(items)
    ensures stored == total
  {
    var p := new TypedPagedEnumerable(Some(items), total);
    untyped := p.GetUntypedEnumerator();
    typed := p.GetEnumerator();
    stored := p.base.total;
  }
}
