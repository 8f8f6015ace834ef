/** ItemStackImpl: one (item id, quantity) pair and its text "<id>:<quantity>". */
module ItemStacks {
  import opened Wrappers
  import opened JavaText
  import opened Decimal
  import opened Base64
  import opened Client

  /** A stack of items; both fields are fixed at construction. */
  datatype ItemStack = ItemStack(itemId: int32, quantity: int32)

  /** The stack standing for an empty slot. */
  const EmptyStack: ItemStack := ItemStack(-1, 0)

  /** The stack for a container slot: the item's id and quantity, or the empty stack for null. */
  function FromItem(item: Option<Item>): (st: ItemStack)
    ensures item.None? ==> st == EmptyStack
    ensures item.Some? ==> st.itemId == item.value.id && st.quantity == item.value.quantity
  {
    match item
    case None => EmptyStack
    case Some(it) => ItemStack(it.id, it.quantity)
  }

  /** SerializeString: the decimal id, a colon, the decimal quantity. */
  function Serialize(st: ItemStack): (s: string)
    ensures IsAscii(s)
  {
    IntToString(st.itemId) + ":" + IntToString(st.quantity)
  }

  /**
    * DeserializeString: the text must split on ':' (empty fields kept) into
    * exactly two fields, each an integer Integer.parseInt accepts.
    */
  function Deserialize(s: string): (r: Result<ItemStack>)
    ensures r.Err? ==> r.error == CorruptData
    ensures r.Ok? ==> Occurrences(s, ':') == 1
    ensures r.Ok? ==> forall i :: 0 <= i < |s| ==> s[i] == ':' || IsDigit(s[i]) || s[i] == '-' || s[i] == '+'
  {
    var fields := Split(s, ':');
    if |fields| != 2 then Err(CorruptData)
    else
      match (ParseInt(fields[0]), ParseInt(fields[1]))
      case (Some(id), Some(quantity)) =>
        SplitCount(s, ':');
        JoinSplit(s, ':');
        assert s == fields[0] + [':'] + fields[1];
        Ok(ItemStack(id, quantity))
      case _ => Err(CorruptData)
  }

  /** The text of a stack has exactly two ':'-fields: the id's digits and the quantity's. */
  lemma SerializeFields(st: ItemStack)
    ensures Split(Serialize(st), ':') == [IntToString(st.itemId), IntToString(st.quantity)]
    ensures Occurrences(Serialize(st), ':') == 1
  {
    var a, b := IntToString(st.itemId), IntToString(st.quantity);
    assert ':' !in a && ':' !in b;
    SplitWithoutDelimiter(a, ':');
    SplitWithoutDelimiter(b, ':');
    SplitAround(a, b, ':');
    SplitCount(Serialize(st), ':');
  }

  /** Deserializing the text of a stack gives the same id and quantity, for all 32-bit values. */
  lemma RoundTrip(st: ItemStack)
    ensures Deserialize(Serialize(st)) == Ok(st)
  {
    SerializeFields(st);
    ParseIntToString(st.itemId);
    ParseIntToString(st.quantity);
  }

  /**
    * A text is a stack exactly when it has two ':'-fields that parseInt
    * accepts, and the stack then holds the values of the two numerals.
    */
  lemma AcceptedIff(s: string)
    ensures Deserialize(s).Ok? <==>
      |Split(s, ':')| == 2 && ParseInt(Split(s, ':')[0]).Some? && ParseInt(Split(s, ':')[1]).Some?
    ensures Deserialize(s).Ok? ==>
      IsNumeral(Split(s, ':')[0]) && IsNumeral(Split(s, ':')[1])
      && Deserialize(s).value.itemId as int == Signed(Split(s, ':')[0])
      && Deserialize(s).value.quantity as int == Signed(Split(s, ':')[1])
  {
  }

  /**
    * A field that is a well-formed numeral whose value does not fit in 32 bits
    * makes the whole text corrupt, as the NumberFormatException of parseInt does.
    */
  lemma OutOfRangeRejected(s: string, k: nat)
    requires |Split(s, ':')| == 2 && k < 2
    requires IsNumeral(Split(s, ':')[k])
    requires Signed(Split(s, ':')[k]) < MinInt32 || MaxInt32 < Signed(Split(s, ':')[k])
    ensures Deserialize(s) == Err(CorruptData)
  {
  }

  /** The texts of two concrete stacks. */
  lemma SerializeExamples()
    ensures Serialize(ItemStack(1205, 1)) == "1205:1"
    ensures Serialize(EmptyStack) == "-1:0"
  {
    IntToStringExamples();
  }
}
