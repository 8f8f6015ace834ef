/**
  * What the codecs read from the game client: item containers, one optional
  * item per slot. The client itself is not part of this model.
  */
module Client {
  import opened Wrappers
  import opened Decimal

  /** An item as the client reports it: its id and its quantity. */
  datatype Item = Item(id: int32, quantity: int32)

  /** An item container: for each slot, an item or null. */
  type ItemContainer = seq<Option<Item>>

  /** ItemContainer.getItem(i), taken to be null beyond the container's size. */
  function ItemAt(c: ItemContainer, i: nat): (r: Option<Item>)
    ensures i >= |c| ==> r.None?
  {
    if i < |c| then c[i] else None
  }
}
