/**
  * InventoryImpl: exactly 28 item stacks, slot index = position; its text is
  * the Base64 of each stack's text, joined with ':'.
  */
module Inventories {
  import opened Wrappers
  import opened JavaText
  import opened Base64
  import opened Client
  import opened ItemStacks

  const InventorySize: nat := 28

  /** The player's inventory: one stack per slot, 28 slots. */
  type Inventory = items: seq<ItemStack> | |items| == InventorySize
    witness seq(InventorySize, _ => EmptyStack)

  /** The private InventoryImpl(IItemStack[]) constructor: any length but 28 is rejected. */
  function NewInventory(items: seq<ItemStack>): (r: Result<Inventory>)
    ensures r.Ok? <==> |items| == InventorySize
    ensures r.Ok? ==> r.value == items
  {
    if |items| == InventorySize then Ok(items) else Err(CorruptData)
  }

  /**
    * ParseInventory: fills 28 slots from the client's container, slot i from
    * item i (or the empty stack where it is null), whatever the container's
    * size; an absent container gives 28 empty stacks.
    */
  method ParseInventory(container: Option<ItemContainer>) returns (inv: Inventory)
    ensures container.None? ==> forall i :: 0 <= i < InventorySize ==> inv[i] == EmptyStack
    ensures container.Some? ==> forall i :: 0 <= i < InventorySize ==> inv[i] == FromItem(ItemAt(container.value, i))
  {
    var parsed := new ItemStack[InventorySize];
    if container.None? {
      for i := 0 to InventorySize
        invariant forall k :: 0 <= k < i ==> parsed[k] == EmptyStack
      {
        parsed[i] := EmptyStack;
      }
      return parsed[..];
    }
    for i := 0 to InventorySize
      invariant forall k :: 0 <= k < i ==> parsed[k] == FromItem(ItemAt(container.value, k))
    {
      var item := ItemAt(container.value, i);
      if item.None? {
        parsed[i] := EmptyStack;
      } else {
        parsed[i] := ItemStack(item.value.id, item.value.quantity);
      }
    }
    inv := parsed[..];
  }

  /** The Base64 token of each stack, in slot order. */
  function Tokens(items: seq<ItemStack>): (t: seq<string>)
    ensures |t| == |items|
    ensures forall i :: 0 <= i < |t| ==> t[i] == EncodeText(ItemStacks.Serialize(items[i]))
  {
    seq(|items|, i requires 0 <= i < |items| => EncodeText(ItemStacks.Serialize(items[i])))
  }

  /** SerializeString: the 28 tokens joined with ':'. */
  function Serialize(inv: Inventory): (s: string)
    ensures IsAscii(s)
  {
    var t := Tokens(inv);
    JoinAscii(t, ':');
    Join(t, ':')
  }

  /** One token of DeserializeString: Base64-decoded, turned into text, decoded as a stack. */
  function DecodeToken(token: string): (r: Result<ItemStack>)
    ensures r.Ok? <==> DecodeText(token).Ok? && ItemStacks.Deserialize(DecodeText(token).value).Ok?
    ensures r.Ok? ==> r == ItemStacks.Deserialize(DecodeText(token).value)
  {
    var text :- DecodeText(token);
    ItemStacks.Deserialize(text)
  }

  /**
    * The stream in DeserializeString: each token decoded, then collected; the
    * first token that fails makes the whole decode fail.
    */
  function DecodeTokens(tokens: seq<string>): (r: Result<seq<ItemStack>>)
    ensures r.Ok? ==> |r.value| == |tokens|
  {
    Collect(seq(|tokens|, i requires 0 <= i < |tokens| => DecodeToken(tokens[i])))
  }

  /** DeserializeString: split on ':' (empty fields kept), decode every token, then the 28-slot check. */
  function Deserialize(s: string): (r: Result<Inventory>)
    ensures r.Ok? ==> Occurrences(s, ':') == InventorySize - 1
    ensures r.Ok? ==> |Split(s, ':')| == InventorySize
    ensures r.Ok? ==> forall i :: 0 <= i < InventorySize ==> DecodeToken(Split(s, ':')[i]) == Ok(r.value[i])
  {
    SplitCount(s, ':');
    DecodeTokensEach(Split(s, ':'));
    var items :- DecodeTokens(Split(s, ':'));
    NewInventory(items)
  }

  /**
    * The tokens decode exactly when every token does, and then the stack in
    * each position is the decode of the token in that position.
    */
  lemma DecodeTokensEach(tokens: seq<string>)
    ensures DecodeTokens(tokens).Ok? <==> forall i :: 0 <= i < |tokens| ==> DecodeToken(tokens[i]).Ok?
    ensures DecodeTokens(tokens).Ok? ==>
      forall i :: 0 <= i < |tokens| ==> DecodeToken(tokens[i]) == Ok(DecodeTokens(tokens).value[i])
  {
    var results := seq(|tokens|, i requires 0 <= i < |tokens| => DecodeToken(tokens[i]));
    assert forall i :: 0 <= i < |tokens| ==> results[i] == DecodeToken(tokens[i]);
  }

  /** The text of an inventory is its 28 tokens, in slot order, with exactly 27 colons. */
  lemma SerializeTokens(inv: Inventory)
    ensures Split(Serialize(inv), ':') == Tokens(inv)
    ensures Occurrences(Serialize(inv), ':') == InventorySize - 1
  {
    SplitJoin(Tokens(inv), ':');
    SplitCount(Serialize(inv), ':');
  }

  /** One stack's token decodes back to the stack. */
  lemma TokenRoundTrip(st: ItemStack)
    ensures DecodeText(EncodeText(ItemStacks.Serialize(st))) == Ok(ItemStacks.Serialize(st))
    ensures ItemStacks.Deserialize(ItemStacks.Serialize(st)) == Ok(st)
    ensures DecodeToken(EncodeText(ItemStacks.Serialize(st))) == Ok(st)
  {
    TextRoundTrip(ItemStacks.Serialize(st));
    ItemStacks.RoundTrip(st);
  }

  /** Decoding the tokens of any list of stacks gives the list back. */
  lemma DecodeTokensOfTokens(items: seq<ItemStack>)
    ensures DecodeTokens(Tokens(items)) == Ok(items)
  {
    var tokens := Tokens(items);
    forall i | 0 <= i < |items|
      ensures DecodeToken(tokens[i]) == Ok(items[i])
    {
      TokenRoundTrip(items[i]);
    }
    DecodeTokensEach(tokens);
    assert DecodeTokens(tokens).value == items;
  }

  /** Deserializing the text of an inventory gives it back, slot by slot. */
  lemma RoundTrip(inv: Inventory)
    ensures Deserialize(Serialize(inv)) == Ok(inv)
  {
    SerializeTokens(inv);
    DecodeTokensOfTokens(inv);
  }

  /** Text with any number of colons but 27 (so any number of tokens but 28) is rejected. */
  lemma WrongSlotCountRejected(s: string)
    requires Occurrences(s, ':') != InventorySize - 1
    ensures Deserialize(s).Err?
  {
    SplitCount(s, ':');
  }

  /** A token that is not Base64, or whose text is not a stack, makes the whole decode fail. */
  lemma BadTokenRejected(s: string, i: nat)
    requires i < |Split(s, ':')|
    requires DecodeText(Split(s, ':')[i]).Err? || ItemStacks.Deserialize(DecodeText(Split(s, ':')[i]).value).Err?
    ensures Deserialize(s).Err?
  {
    DecodeTokensEach(Split(s, ':'));
  }
}
