/**
  * LoadoutImpl: a named pair of an inventory and an equipment map, and its
  * one-line text "<name>;<Base64 inventory>:<Base64 equipment>:<version>".
  */
module Loadouts {
  import opened Wrappers
  import opened JavaText
  import opened Base64
  import opened Client
  import opened ItemStacks
  import Inventories
  import Equipments

  /** A saved loadout. */
  datatype Loadout = Loadout(name: string, inventory: Inventories.Inventory, equipment: Equipments.Equipment)

  /** The only format version written and accepted. */
  const Version: string := "1"

  /**
    * The constructor from the client: both containers are parsed, and the
    * loadout is refused when neither the inventory nor the equipment container
    * is available.
    */
  method Capture(name: string, inventoryContainer: Option<ItemContainer>, equipmentContainer: Option<ItemContainer>)
    returns (r: Result<Loadout>)
    ensures r.Err? <==> inventoryContainer.None? && equipmentContainer.None?
    ensures r.Err? ==> r.error == UnexpectedClientState
    ensures r.Ok? ==> r.value.name == name
    ensures r.Ok? && inventoryContainer.None? ==>
      forall i :: 0 <= i < Inventories.InventorySize ==> r.value.inventory[i] == EmptyStack
    ensures r.Ok? && inventoryContainer.Some? ==>
      forall i :: 0 <= i < Inventories.InventorySize ==>
        r.value.inventory[i] == FromItem(ItemAt(inventoryContainer.value, i))
    ensures r.Ok? && equipmentContainer.None? ==> r.value.equipment == map[]
    ensures r.Ok? && equipmentContainer.Some? ==>
      r.value.equipment == Equipments.EquipmentOf(equipmentContainer.value, |equipmentContainer.value|)
  {
    var inventory := Inventories.ParseInventory(inventoryContainer);
    var equipment := Equipments.ParseEquipment(equipmentContainer);
    if inventoryContainer.None? && equipmentContainer.None? {
      return Err(UnexpectedClientState);
    }
    return Ok(Loadout(name, inventory, equipment));
  }

  /** The part after the last ';': the two Base64 blobs and the version, ':'-separated. */
  function Tail(l: Loadout, equipmentText: string): (t: string)
    requires IsAscii(equipmentText)
    ensures ';' !in t && '\n' !in t && |t| > 0 && !IsWhitespace(t[|t| - 1])
  {
    var a := EncodeText(Inventories.Serialize(l.inventory));
    var b := EncodeText(equipmentText);
    Around(a, ':', b);
    Around(a + ":" + b, ':', Version);
    var t := a + ":" + b + ":" + Version;
    assert t[|t| - 1] == '1';
    t
  }

  /**
    * SerializeString: the name, ';', then the tail (see TailFields). Fails
    * only where the equipment's text does (a null slot key).
    */
  function Serialize(l: Loadout): (r: Result<string>)
    ensures r.Err? <==> None in l.equipment
    ensures r.Ok? ==> |r.value| > |l.name| && r.value[..|l.name|] == l.name && r.value[|l.name|] == ';'
    ensures r.Ok? ==> ('\n' in r.value <==> '\n' in l.name)
  {
    var equipmentText :- Equipments.Serialize(l.equipment);
    var t := Tail(l, equipmentText);
    Around(l.name, ';', t);
    Ok(l.name + ";" + t)
  }

  /**
    * After the name and its ';', the text of a loadout is a ';'-free tail of
    * three ':'-fields: the Base64 of the inventory's text, the Base64 of the
    * equipment's text, and the version "1".
    */
  lemma TailFields(l: Loadout)
    requires None !in l.equipment
    ensures Serialize(l).Ok?
    ensures var t := Serialize(l).value[|l.name| + 1..];
      ';' !in t && Split(t, ':') ==
        [EncodeText(Inventories.Serialize(l.inventory)), EncodeText(Equipments.Serialize(l.equipment).value), Version]
  {
    SerializedText(l);
    var a := EncodeText(Inventories.Serialize(l.inventory));
    var b := EncodeText(Equipments.Serialize(l.equipment).value);
    var t := a + ":" + b + ":" + Version;
    assert (l.name + ";" + t)[|l.name| + 1..] == t;
    SplitTail(a, b, Version);
    Around(a, ':', b);
    Around(a + ":" + b, ':', Version);
  }

  /**
    * The framing in DeserializeString: the stripped text split on ';' (empty
    * pieces kept) must have at least two pieces; the name is all pieces but the
    * last, re-joined with ';'; the last must split on ':' into exactly three fields.
    */
  function Fields(s: string): (r: Result<(string, seq<string>)>)
    ensures r.Ok? ==> |r.value.1| == 3
  {
    var top := Split(Strip(s), ';');
    if |top| < 2 then Err(CorruptData)
    else
      var components := Split(top[|top| - 1], ':');
      if |components| != 3 then Err(CorruptData)
      else Ok((Join(top[..|top| - 1], ';'), components))
  }

  /**
    * DeserializeString: the two blobs are Base64-decoded, the version must be
    * "1", then the inventory and the equipment are decoded.
    */
  function Deserialize(s: string): (r: Result<Loadout>)
    ensures r.Ok? ==> Fields(s).Ok? && r.value.name == Fields(s).value.0 && Fields(s).value.1[2] == Version
  {
    FromFields(Fields(s))
  }

  /**
    * The part of DeserializeString after the framing: it succeeds only when
    * the framing did and the version is "1" (see AcceptedParts for the blobs).
    */
  function FromFields(f: Result<(string, seq<string>)>): (r: Result<Loadout>)
    requires f.Ok? ==> |f.value.1| == 3
    ensures r.Ok? ==> f.Ok? && r.value.name == f.value.0 && f.value.1[2] == Version
  {
    var fields :- f;
    var inventoryText :- DecodeText(fields.1[0]);
    var equipmentText :- DecodeText(fields.1[1]);
    if fields.1[2] != Version then Err(CorruptData)
    else
      var inventory :- Inventories.Deserialize(inventoryText);
      var equipment :- Equipments.Deserialize(equipmentText);
      Ok(Loadout(fields.0, inventory, equipment))
  }

  /** A name and a ';'-free tail split back into that name and that tail, whatever ';' the name holds. */
  lemma SplitName(name: string, tail: string)
    requires ';' !in tail
    ensures |Split(name + ";" + tail, ';')| >= 2
    ensures var top := Split(name + ";" + tail, ';');
      Join(top[..|top| - 1], ';') == name && top[|top| - 1] == tail
  {
    assert name + ";" + tail == name + [';'] + tail;
    SplitAround(name, tail, ';');
    SplitWithoutDelimiter(tail, ';');
    var top := Split(name + ";" + tail, ';');
    assert top[..|top| - 1] == Split(name, ';');
    JoinSplit(name, ';');
  }

  /** Three ':'-free fields joined with ':' split back into those three. */
  lemma SplitTail(a: string, b: string, c: string)
    requires ':' !in a && ':' !in b && ':' !in c
    ensures Split(a + ":" + b + ":" + c, ':') == [a, b, c]
  {
    assert a + ":" + b + ":" + c == a + [':'] + (b + [':'] + c);
    SplitAround(b, c, ':');
    SplitAround(a, b + [':'] + c, ':');
    SplitWithoutDelimiter(a, ':');
    SplitWithoutDelimiter(b, ':');
    SplitWithoutDelimiter(c, ':');
  }

  /**
    * The framing of a text made of a name and three ':'-free, ';'-free fields,
    * when strip() leaves it as it is.
    */
  lemma FieldsOf(name: string, a: string, b: string, v: string)
    requires ':' !in a && ':' !in b && ':' !in v && ';' !in a && ';' !in b && ';' !in v
    requires Strip(name + ";" + (a + ":" + b + ":" + v)) == name + ";" + (a + ":" + b + ":" + v)
    ensures Fields(name + ";" + (a + ":" + b + ":" + v)) == Ok((name, [a, b, v]))
  {
    var tail := a + ":" + b + ":" + v;
    SplitName(name, tail);
    SplitTail(a, b, v);
  }

  /** The text of a loadout is left as it is by strip() when its name does not begin with whitespace. */
  lemma SerializedIsStripped(name: string, tail: string)
    requires NoLeadingWhitespace(name) && |tail| > 0 && !IsWhitespace(tail[|tail| - 1])
    ensures Strip(name + ";" + tail) == name + ";" + tail
  {
    var s := name + ";" + tail;
    if |name| > 0 {
      assert s[0] == name[0];
    } else {
      assert s[0] == ';';
    }
    StripUnchanged(s);
  }

  /** Deserialize once the framing, both blobs and both inner texts have decoded. */
  lemma DeserializeParts(s: string, name: string, a: string, b: string, l: Loadout)
    requires Fields(s) == Ok((name, [a, b, Version]))
    requires DecodeText(a).Ok? && Inventories.Deserialize(DecodeText(a).value) == Ok(l.inventory)
    requires DecodeText(b).Ok? && Equipments.Deserialize(DecodeText(b).value) == Ok(l.equipment)
    requires l.name == name
    ensures Deserialize(s) == Ok(l)
  {
  }

  /** The text of a loadout without a null slot, written out. */
  lemma SerializedText(l: Loadout)
    requires None !in l.equipment
    ensures Equipments.Serialize(l.equipment).Ok?
    ensures Serialize(l) == Ok(l.name + ";" + (EncodeText(Inventories.Serialize(l.inventory)) + ":"
      + EncodeText(Equipments.Serialize(l.equipment).value) + ":" + Version))
  {
  }

  /**
    * Deserializing the text of a loadout gives it back when its name does not
    * begin with whitespace (strip() would remove it) and its equipment has no
    * null slot (serializing would throw).
    */
  lemma RoundTrip(l: Loadout)
    requires NoLeadingWhitespace(l.name) && None !in l.equipment
    ensures Serialize(l).Ok? && Deserialize(Serialize(l).value) == Ok(l)
  {
    SerializedText(l);
    var equipmentText := Equipments.Serialize(l.equipment).value;
    var inventoryText := Inventories.Serialize(l.inventory);
    var a, b := EncodeText(inventoryText), EncodeText(equipmentText);
    var tail := a + ":" + b + ":" + Version;
    SerializedIsStripped(l.name, tail);
    FieldsOf(l.name, a, b, Version);
    TextRoundTrip(inventoryText);
    TextRoundTrip(equipmentText);
    Inventories.RoundTrip(l.inventory);
    Equipments.RoundTrip(l.equipment);
    DeserializeParts(l.name + ";" + tail, l.name, a, b, l);
  }

  /** Leading whitespace is dropped before decoding: a name that began with it comes back without it. */
  lemma LeadingWhitespaceIgnored(c: char, s: string)
    requires IsWhitespace(c)
    ensures Deserialize([c] + s) == Deserialize(s)
  {
    StripSkipsLeadingWhitespace(c, s);
    assert Fields([c] + s) == Fields(s);
  }

  /** A text without ';' (after strip()) is not a loadout. */
  lemma NoSeparatorRejected(s: string)
    requires ';' !in Strip(s)
    ensures Deserialize(s).Err?
  {
    SplitWithoutDelimiter(Strip(s), ';');
  }

  /** A last ';'-piece without exactly two ':' is not a loadout. */
  lemma TailFieldCountChecked(s: string)
    requires var top := Split(Strip(s), ';'); Occurrences(top[|top| - 1], ':') != 2
    ensures Deserialize(s).Err?
  {
    var top := Split(Strip(s), ';');
    SplitCount(top[|top| - 1], ':');
    assert Fields(s).Err?;
  }

  /** Any version but "1" is refused. */
  lemma VersionChecked(name: string, a: string, b: string, v: string)
    requires ':' !in a && ':' !in b && ':' !in v && ';' !in a && ';' !in b && ';' !in v
    requires Strip(name + ";" + (a + ":" + b + ":" + v)) == name + ";" + (a + ":" + b + ":" + v)
    requires v != Version
    ensures Deserialize(name + ";" + (a + ":" + b + ":" + v)).Err?
  {
    FieldsOf(name, a, b, v);
  }

  /**
    * A text is accepted only when each blob is Base64 of the text of its
    * part: the inventory's and the equipment map's (DeserializeParts is the converse).
    */
  lemma AcceptedParts(s: string)
    requires Deserialize(s).Ok?
    ensures var f := Fields(s).value.1;
      DecodeText(f[0]).Ok? && Inventories.Deserialize(DecodeText(f[0]).value) == Ok(Deserialize(s).value.inventory)
      && DecodeText(f[1]).Ok? && Equipments.Deserialize(DecodeText(f[1]).value) == Ok(Deserialize(s).value.equipment)
  {
  }

  /**
    * Blobs that are valid Base64 but whose texts are not an inventory or not
    * an equipment map make the loadout corrupt.
    */
  lemma NestedDecodeRejected(s: string, name: string, a: string, b: string)
    requires Fields(s) == Ok((name, [a, b, Version]))
    requires DecodeText(a).Ok? && DecodeText(b).Ok?
    requires Inventories.Deserialize(DecodeText(a).value).Err? || Equipments.Deserialize(DecodeText(b).value).Err?
    ensures Deserialize(s).Err?
  {
    assert Deserialize(s) == FromFields(Ok((name, [a, b, Version])));
  }

  /** A blob that is not valid Base64 is refused. */
  lemma BadBlobRejected(name: string, a: string, b: string, v: string)
    requires ':' !in a && ':' !in b && ':' !in v && ';' !in a && ';' !in b && ';' !in v
    requires Strip(name + ";" + (a + ":" + b + ":" + v)) == name + ";" + (a + ":" + b + ":" + v)
    requires DecodeText(a).Err? || DecodeText(b).Err?
    ensures Deserialize(name + ";" + (a + ":" + b + ":" + v)).Err?
  {
    FieldsOf(name, a, b, v);
  }
}
