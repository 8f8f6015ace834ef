/**
  * EquipmentImpl: the worn items, a map from equipment slot to item stack.
  * Its text is a ';'-joined list of "<slot code>:<Base64 of the stack's text>".
  */
module Equipments {
  import opened Wrappers
  import opened JavaText
  import opened Decimal
  import opened Base64
  import opened Client
  import opened ItemStacks

  /** The client's EquipmentInventorySlot values. */
  datatype Slot = Head | Cape | Amulet | Weapon | Body | Shield | Legs | Gloves | Boots | Ring | Ammo

  /** EquipmentInventorySlot.getSlotIdx: the slot's index in the client's equipment container. */
  function SlotIdx(s: Slot): nat
  {
    match s
    case Head => 0
    case Cape => 1
    case Amulet => 2
    case Weapon => 3
    case Body => 4
    case Shield => 5
    case Legs => 7
    case Gloves => 9
    case Boots => 10
    case Ring => 12
    case Ammo => 13
  }

  /**
    * ID_TO_SLOT.get(i): the slot with index i, or null (None) for an index
    * no slot has (6, 8, 11, negative or above 13).
    */
  function SlotOfIndex(i: int): (r: Option<Slot>)
    ensures r.Some? ==> SlotIdx(r.value) == i
  {
    if i == 0 then Some(Head)
    else if i == 1 then Some(Cape)
    else if i == 2 then Some(Amulet)
    else if i == 3 then Some(Weapon)
    else if i == 4 then Some(Body)
    else if i == 5 then Some(Shield)
    else if i == 7 then Some(Legs)
    else if i == 9 then Some(Gloves)
    else if i == 10 then Some(Boots)
    else if i == 12 then Some(Ring)
    else if i == 13 then Some(Ammo)
    else None
  }

  /** ID_TO_SLOT is the inverse of getSlotIdx: every slot is found again under its own index. */
  lemma SlotOfSlotIdx(s: Slot)
    ensures SlotOfIndex(SlotIdx(s)) == Some(s)
  {
  }

  lemma SlotsByIndex()
    ensures forall s: Slot :: SlotOfIndex(SlotIdx(s)) == Some(s)
  {
    forall s: Slot {
      SlotOfSlotIdx(s);
    }
  }

  /** The indices ID_TO_SLOT maps to a slot are exactly these eleven. */
  lemma SlotIndices(i: int)
    ensures SlotOfIndex(i).Some? <==> i in {0, 1, 2, 3, 4, 5, 7, 9, 10, 12, 13}
  {
  }

  /** The equipment map; a key of None stands for the null key the Java map can hold. */
  type Equipment = map<Option<Slot>, ItemStack>

  /**
    * What ParseEquipment computes from the first n slots of a container: each
    * non-null item put under ID_TO_SLOT.get(i), a later put replacing an earlier one.
    */
  function EquipmentOf(c: ItemContainer, n: nat): Equipment
    requires n <= |c|
  {
    if n == 0 then map[]
    else
      var m := EquipmentOf(c, n - 1);
      if c[n - 1].Some? then m[SlotOfIndex(n - 1) := FromItem(c[n - 1])] else m
  }

  /**
    * ParseEquipment: an absent container gives the empty map; otherwise slot
    * by slot over the container's size, every non-null item is put under its slot.
    */
  method ParseEquipment(container: Option<ItemContainer>) returns (mapping: Equipment)
    ensures container.None? ==> mapping == map[]
    ensures container.Some? ==> mapping == EquipmentOf(container.value, |container.value|)
  {
    mapping := map[];
    if container.None? {
      return;
    }
    var c := container.value;
    for i := 0 to |c|
      invariant mapping == EquipmentOf(c, i)
    {
      var item := c[i];
      var slot := SlotOfIndex(i);
      if item.Some? {
        mapping := mapping[slot := ItemStack(item.value.id, item.value.quantity)];
      }
    }
  }

  /**
    * A slot is worn exactly when the container holds an item at the slot's
    * index, and it holds that item's stack.
    */
  lemma {:induction false} EquipmentOfSlot(c: ItemContainer, n: nat, s: Slot)
    requires n <= |c|
    ensures Some(s) in EquipmentOf(c, n) <==> SlotIdx(s) < n && c[SlotIdx(s)].Some?
    ensures Some(s) in EquipmentOf(c, n) ==> EquipmentOf(c, n)[Some(s)] == FromItem(c[SlotIdx(s)])
  {
    if n > 0 {
      EquipmentOfSlot(c, n - 1, s);
      SlotOfSlotIdx(s);
    }
  }

  /**
    * The null key is present exactly when the container holds an item at an
    * index no slot has.
    */
  lemma {:induction false} EquipmentOfNull(c: ItemContainer, n: nat)
    requires n <= |c|
    ensures None in EquipmentOf(c, n) <==> exists i :: 0 <= i < n && c[i].Some? && SlotOfIndex(i).None?
  {
    if n > 0 {
      EquipmentOfNull(c, n - 1);
    }
  }

  /** The text of one entry: the decimal code, ':', the Base64 of the stack's text. */
  function EntryText(code: int, st: ItemStack): (s: string)
    ensures ';' !in s && |s| > 0 && !IsWhitespace(s[0])
    ensures IsAscii(s)
  {
    var token := EncodeText(ItemStacks.Serialize(st));
    var key := IntToString(code);
    assert key[0] == '-' || IsDigit(key[0]);
    assert IsAscii(key);
    Around(key, ':', token);
    AsciiAround(key, ':', token);
    key + ":" + token
  }

  /** The entries of the map in the given iteration order. */
  function EntriesIn(eq: Equipment, order: seq<Option<Slot>>): (r: seq<string>)
    requires forall k :: k in order ==> k in eq && k.Some?
    ensures |r| == |order|
    ensures forall i :: 0 <= i < |r| ==> r[i] == EntryText(SlotIdx(order[i].value), eq[order[i]])
  {
    seq(|order|, i requires 0 <= i < |order| => EntryText(SlotIdx(order[i].value), eq[order[i]]))
  }

  /** A HashMap's iteration order: every key exactly once. */
  ghost predicate IsIterationOrder(eq: Equipment, order: seq<Option<Slot>>)
  {
    (forall i, j :: 0 <= i < j < |order| ==> order[i] != order[j])
    && (forall k :: k in order <==> k in eq)
  }

  /**
    * SerializeString, iterating the map in the given order: a null key throws
    * (getSlotIdx on null); otherwise the entries joined with ';'.
    */
  function SerializeIn(eq: Equipment, order: seq<Option<Slot>>): (r: Result<string>)
    requires IsIterationOrder(eq, order)
    ensures r.Err? <==> None in eq
    ensures r.Err? ==> r.error == NullSlot
    ensures r.Ok? ==> IsAscii(r.value)
    ensures r.Ok? && |order| == 0 ==> r.value == ""
    ensures r.Ok? && |order| > 0 ==> Split(r.value, ';') == EntriesIn(eq, order)
    ensures r.Ok? ==> Segments(r.value) == EntriesIn(eq, order)
  {
    if None in order then Err(NullSlot)
    else
      var entries := EntriesIn(eq, order);
      JoinAscii(entries, ';');
      assert forall i :: 0 <= i < |entries| ==> ';' !in entries[i] && !IsBlank(entries[i]);
      SegmentsOfJoin(entries);
      if |entries| > 0 then SplitJoin(entries, ';'); Ok(Join(entries, ';')) else Ok(Join(entries, ';'))
  }

  /** The slot keys of the map whose index is below n, by increasing index. */
  function PresentBelow(eq: Equipment, n: nat): (r: seq<Option<Slot>>)
    ensures forall k :: k in r <==> k in eq && k.Some? && SlotIdx(k.value) < n
    ensures forall i, j :: 0 <= i < j < |r| ==> SlotIdx(r[i].value) < SlotIdx(r[j].value)
  {
    if n == 0 then []
    else
      var prev := PresentBelow(eq, n - 1);
      var k := SlotOfIndex(n - 1);
      SlotsByIndex();
      if k.Some? && k in eq then prev + [k] else prev
  }

  /** The order the model serializes in: the null key first, then the slots by increasing index. */
  function CanonicalOrder(eq: Equipment): (order: seq<Option<Slot>>)
    ensures IsIterationOrder(eq, order)
  {
    var somes := PresentBelow(eq, 14);
    assert forall s: Slot :: SlotIdx(s) < 14;
    if None in eq then [None] + somes else somes
  }

  /**
    * SerializeString: fails exactly when the null key is present; otherwise
    * the segments of the text are the entries, one per key.
    */
  function Serialize(eq: Equipment): (r: Result<string>)
    ensures r.Err? <==> None in eq
    ensures r.Err? ==> r.error == NullSlot
    ensures r.Ok? ==> IsAscii(r.value)
    ensures r.Ok? ==> Segments(r.value) == EntriesIn(eq, CanonicalOrder(eq))
  {
    SerializeIn(eq, CanonicalOrder(eq))
  }

  /** The map with no entries is written as empty text. */
  lemma EmptyEquipmentText()
    ensures Serialize(map[]) == Ok("")
  {
  }

  /**
    * One entry of DeserializeString: exactly two ':'-fields, a key that
    * Integer.parseInt accepts and a Base64 value holding a stack's text. The
    * key becomes ID_TO_SLOT.get(key), so an unknown code gives the null key.
    */
  function DecodeEntry(seg: string): (r: Result<(Option<Slot>, ItemStack)>)
    ensures r.Err? ==> r.error == CorruptData
    ensures r.Ok? ==> Occurrences(seg, ':') == 1
  {
    var kvp := Split(seg, ':');
    SplitCount(seg, ':');
    if |kvp| != 2 then Err(CorruptData)
    else
      match ParseInt(kvp[0])
      case None => Err(CorruptData)
      case Some(code) =>
        var text :- DecodeText(kvp[1]);
        var st :- ItemStacks.Deserialize(text);
        Ok((SlotOfIndex(code), st))
  }

  /**
    * An entry is accepted exactly when it has two ':'-fields, the key parses
    * as an int, and the value is Base64 of a stack's text; it then holds the
    * slot the code names (the null key for an unknown code) and that stack.
    */
  lemma EntryAcceptedIff(seg: string)
    ensures var kvp := Split(seg, ':');
      DecodeEntry(seg).Ok? <==>
        |kvp| == 2 && ParseInt(kvp[0]).Some?
        && DecodeText(kvp[1]).Ok? && ItemStacks.Deserialize(DecodeText(kvp[1]).value).Ok?
    ensures var kvp := Split(seg, ':');
      DecodeEntry(seg).Ok? ==>
        DecodeEntry(seg).value == (SlotOfIndex(ParseInt(kvp[0]).value), ItemStacks.Deserialize(DecodeText(kvp[1]).value).value)
  {
  }

  /** The loop of DeserializeString: each entry put into the map in turn; the first bad entry throws. */
  function DecodeEntries(segs: seq<string>, acc: Equipment): (r: Result<Equipment>)
    ensures r.Err? ==> r.error == CorruptData
  {
    if |segs| == 0 then Ok(acc)
    else
      var entry :- DecodeEntry(segs[0]);
      DecodeEntries(segs[1..], acc[entry.0 := entry.1])
  }

  /** The non-blank ';'-segments of the text (split with limit -1, blanks filtered out). */
  function Segments(s: string): (r: seq<string>)
    ensures |r| <= |Split(s, ';')|
    ensures forall i :: 0 <= i < |r| ==> ';' !in r[i] && !IsBlank(r[i])
  {
    NonBlank(Split(s, ';'))
  }

  /** DeserializeString: the entries of the segments, put into an empty map in turn. */
  function Deserialize(s: string): (r: Result<Equipment>)
    ensures r.Err? ==> r.error == CorruptData
  {
    DecodeEntries(Segments(s), map[])
  }

  /** DeserializeString as the source writes it: a loop over the segments, updating the map. */
  method DeserializeString(s: string) returns (r: Result<Equipment>)
    ensures r == Deserialize(s)
  {
    var items := Segments(s);
    var itemMap: Equipment := map[];
    assert items[0..] == items;
    for i := 0 to |items|
      invariant DecodeEntries(items[i..], itemMap) == Deserialize(s)
    {
      assert items[i..][1..] == items[i + 1..];
      var entry := DecodeEntry(items[i]);
      if entry.Err? {
        DecodeEntriesStops(items[i..], itemMap);
        return Err(entry.error);
      }
      DecodeEntriesCons(items[i..], itemMap, entry.value.0, entry.value.1);
      itemMap := itemMap[entry.value.0 := entry.value.1];
    }
    assert items[|items|..] == [];
    return Ok(itemMap);
  }

  // ---------------------------------------------------------------------
  // Round trip

  /** An entry decodes to the slot its code names (or the null key) and to its stack. */
  lemma EntryDecodes(code: int32, st: ItemStack)
    ensures DecodeEntry(EntryText(code, st)) == Ok((SlotOfIndex(code), st))
  {
    EntryFields(code, st);
    ParseIntToString(code);
    TextRoundTrip(ItemStacks.Serialize(st));
    ItemStacks.RoundTrip(st);
  }

  /** An entry splits on ':' into its slot code and its item token. */
  lemma EntryFields(code: int, st: ItemStack)
    ensures Split(EntryText(code, st), ':') == [IntToString(code), EncodeText(ItemStacks.Serialize(st))]
  {
    var token := EncodeText(ItemStacks.Serialize(st));
    var key := IntToString(code);
    assert ':' !in key;
    SplitWithoutDelimiter(key, ':');
    SplitWithoutDelimiter(token, ':');
    SplitAround(key, token, ':');
  }

  /** The map `acc` overwritten with `eq`'s value for every key listed in `order`. */
  function Overlay(acc: Equipment, eq: Equipment, order: seq<Option<Slot>>): Equipment
    requires forall k :: k in order ==> k in eq
  {
    acc + map k | k in order :: eq[k]
  }

  /** Overlaying a list is overlaying its head, then its tail. */
  lemma OverlayCons(acc: Equipment, eq: Equipment, order: seq<Option<Slot>>)
    requires |order| > 0 && forall k :: k in order ==> k in eq
    ensures Overlay(acc[order[0] := eq[order[0]]], eq, order[1..]) == Overlay(acc, eq, order)
  {
    var k := order[0];
    var l := Overlay(acc[k := eq[k]], eq, order[1..]);
    var r := Overlay(acc, eq, order);
    assert forall x :: x in order <==> x == k || x in order[1..];
    assert l.Keys == r.Keys;
    forall x | x in l
      ensures l[x] == r[x]
    {
      if x in order[1..] {
        assert l[x] == eq[x] && r[x] == eq[x];
      } else if x == k {
        assert l[x] == eq[x] && r[x] == eq[x];
      }
    }
  }

  /** DecodeEntries takes one entry off the front. */
  lemma DecodeEntriesCons(segs: seq<string>, acc: Equipment, k: Option<Slot>, st: ItemStack)
    requires |segs| > 0 && DecodeEntry(segs[0]) == Ok((k, st))
    ensures DecodeEntries(segs, acc) == DecodeEntries(segs[1..], acc[k := st])
  {
  }

  /** DecodeEntries stops at a first entry that fails, with its error. */
  lemma DecodeEntriesStops(segs: seq<string>, acc: Equipment)
    requires |segs| > 0 && DecodeEntry(segs[0]).Err?
    ensures DecodeEntries(segs, acc) == Err(DecodeEntry(segs[0]).error)
  {
  }

  /** The first entry of the text decodes to the first key and its stack; the others are the rest of the order's. */
  lemma EntriesInCons(eq: Equipment, order: seq<Option<Slot>>)
    requires |order| > 0 && forall k :: k in order ==> k in eq && k.Some?
    ensures DecodeEntry(EntriesIn(eq, order)[0]) == Ok((order[0], eq[order[0]]))
    ensures EntriesIn(eq, order)[1..] == EntriesIn(eq, order[1..])
  {
    var k := order[0];
    SlotOfSlotIdx(k.value);
    EntryDecodes(SlotIdx(k.value), eq[k]);
  }

  lemma {:induction false} DecodeEntriesIn(eq: Equipment, order: seq<Option<Slot>>, acc: Equipment)
    requires forall k :: k in order ==> k in eq && k.Some?
    ensures DecodeEntries(EntriesIn(eq, order), acc) == Ok(Overlay(acc, eq, order))
  {
    if |order| > 0 {
      var k := order[0];
      EntriesInCons(eq, order);
      DecodeEntriesCons(EntriesIn(eq, order), acc, k, eq[k]);
      DecodeEntriesIn(eq, order[1..], acc[k := eq[k]]);
      OverlayCons(acc, eq, order);
    } else {
      assert Overlay(acc, eq, order) == acc;
    }
  }

  /** Joining entries that hold no ';' and are not blank gives a text whose segments are those entries. */
  lemma SegmentsOfJoin(entries: seq<string>)
    requires forall i :: 0 <= i < |entries| ==> ';' !in entries[i] && !IsBlank(entries[i])
    ensures Segments(Join(entries, ';')) == entries
  {
    if |entries| == 0 {
      assert Split("", ';') == [""];
      assert NonBlank([""]) == [];
    } else {
      SplitJoin(entries, ';');
      NonBlankAll(entries);
    }
  }

  /** Overlaying every key of a map onto the empty map gives that map. */
  lemma OverlayAll(eq: Equipment, order: seq<Option<Slot>>)
    requires forall k :: k in order <==> k in eq
    ensures Overlay(map[], eq, order) == eq
  {
  }

  /** Whatever order the map is iterated in, deserializing its text gives the map back. */
  lemma RoundTripIn(eq: Equipment, order: seq<Option<Slot>>)
    requires IsIterationOrder(eq, order) && None !in eq
    ensures SerializeIn(eq, order).Ok?
    ensures Deserialize(SerializeIn(eq, order).value) == Ok(eq)
  {
    var entries := EntriesIn(eq, order);
    assert forall i :: 0 <= i < |entries| ==> ';' !in entries[i] && !IsBlank(entries[i]);
    SegmentsOfJoin(entries);
    DecodeEntriesIn(eq, order, map[]);
    OverlayAll(eq, order);
  }

  /** Deserializing the text of an equipment map without a null key gives it back. */
  lemma RoundTrip(eq: Equipment)
    requires None !in eq
    ensures Serialize(eq).Ok? && Deserialize(Serialize(eq).value) == Ok(eq)
  {
    RoundTripIn(eq, CanonicalOrder(eq));
  }

  // ---------------------------------------------------------------------
  // How DeserializeString reads other texts

  /** Empty text, and text of empty segments only, is the empty map. */
  lemma EmptyTexts()
    ensures Deserialize("") == Ok(map[])
    ensures Deserialize(";;") == Ok(map[])
  {
    assert Split("", ';') == [""];
    assert Split(";;", ';') == ["", "", ""];
    assert NonBlank([""]) == [];
    assert NonBlank(["", "", ""]) == [];
  }

  /** The segments of two texts joined with ';' are those of the first, then those of the second. */
  lemma SegmentsAround(a: string, b: string)
    ensures Segments(a + ";" + b) == Segments(a) + Segments(b)
  {
    assert a + ";" + b == a + [';'] + b;
    SplitAround(a, b, ';');
    NonBlankAppend(Split(a, ';'), Split(b, ';'));
  }

  /** A blank segment between two others is skipped. */
  lemma BlankSegmentIgnored(a: string, w: string, b: string)
    requires IsBlank(w) && ';' !in w
    ensures Deserialize(a + ";" + w + ";" + b) == Deserialize(a + ";" + b)
  {
    BlankSegmentDropped(a, w, b);
  }

  lemma BlankSegmentDropped(a: string, w: string, b: string)
    requires IsBlank(w) && ';' !in w
    ensures Segments(a + ";" + w + ";" + b) == Segments(a + ";" + b)
  {
    assert a + ";" + w + ";" + b == a + ";" + (w + ";" + b);
    SegmentsAround(a, w + ";" + b);
    SegmentsAround(w, b);
    BlankHasNoSegments(w);
    SegmentsAround(a, b);
  }

  lemma BlankHasNoSegments(w: string)
    requires IsBlank(w) && ';' !in w
    ensures Segments(w) == []
  {
    SplitWithoutDelimiter(w, ';');
    assert NonBlank([w]) == [];
  }

  /** One update followed by an overlay is an overlay of the updated overlay. */
  lemma UpdateThenOverlay(acc: Equipment, k: Option<Slot>, v: ItemStack, m: Equipment)
    ensures acc[k := v] + m == acc + (map[k := v] + m)
  {
  }

  /** Decoding from a non-empty map: the same outcome, laid over that map. */
  lemma {:induction false} DecodeEntriesFrom(segs: seq<string>, acc: Equipment)
    ensures DecodeEntries(segs, acc).Ok? <==> DecodeEntries(segs, map[]).Ok?
    ensures DecodeEntries(segs, acc).Ok? ==>
      DecodeEntries(segs, acc).value == acc + DecodeEntries(segs, map[]).value
  {
    if |segs| > 0 && DecodeEntry(segs[0]).Ok? {
      var e := DecodeEntry(segs[0]).value;
      DecodeEntriesCons(segs, acc, e.0, e.1);
      DecodeEntriesCons(segs, map[], e.0, e.1);
      DecodeEntriesFrom(segs[1..], acc[e.0 := e.1]);
      DecodeEntriesFrom(segs[1..], map[e.0 := e.1]);
      if DecodeEntries(segs, acc).Ok? {
        UpdateThenOverlay(acc, e.0, e.1, DecodeEntries(segs[1..], map[]).value);
      }
    }
  }

  /** Decoding a concatenation of segment lists: the first, then the second on top of it. */
  lemma {:induction false} DecodeEntriesAppend(x: seq<string>, y: seq<string>, acc: Equipment)
    ensures DecodeEntries(x + y, acc) ==
      match DecodeEntries(x, acc)
      case Err(e) => Err(e)
      case Ok(m) => DecodeEntries(y, m)
  {
    if |x| == 0 {
      assert x + y == y;
    } else {
      assert (x + y)[1..] == x[1..] + y;
      if DecodeEntry(x[0]).Ok? {
        var e := DecodeEntry(x[0]).value;
        DecodeEntriesAppend(x[1..], y, acc[e.0 := e.1]);
      }
    }
  }

  /**
    * Two texts joined with ';' decode to the first map overwritten by the
    * second: a slot that appears twice keeps its later stack.
    */
  lemma LaterEntryWins(s: string, t: string)
    requires Deserialize(s).Ok? && Deserialize(t).Ok?
    ensures Deserialize(s + ";" + t) == Ok(Deserialize(s).value + Deserialize(t).value)
  {
    SegmentsAround(s, t);
    DecodeEntriesAppend(Segments(s), Segments(t), map[]);
    DecodeEntriesFrom(Segments(t), Deserialize(s).value);
  }

  /**
    * The entries decode exactly when every segment is an entry, and then the
    * key of every segment is in the map.
    */
  lemma {:induction false} DecodeEntriesOk(segs: seq<string>, acc: Equipment)
    ensures DecodeEntries(segs, acc).Ok? <==> forall i :: 0 <= i < |segs| ==> DecodeEntry(segs[i]).Ok?
    ensures DecodeEntries(segs, acc).Ok? ==>
      forall i :: 0 <= i < |segs| ==> DecodeEntry(segs[i]).value.0 in DecodeEntries(segs, acc).value
  {
    if |segs| > 0 {
      assert forall i :: 0 < i < |segs| ==> segs[i] == segs[1..][i - 1];
      if DecodeEntry(segs[0]).Ok? {
        var e := DecodeEntry(segs[0]).value;
        DecodeEntriesOk(segs[1..], acc[e.0 := e.1]);
        DecodeEntriesKeepsKeys(segs[1..], acc[e.0 := e.1]);
      }
    }
  }

  /** A key put into the map earlier is never removed by the later entries. */
  lemma {:induction false} DecodeEntriesKeepsKeys(segs: seq<string>, acc: Equipment)
    ensures DecodeEntries(segs, acc).Ok? ==> acc.Keys <= DecodeEntries(segs, acc).value.Keys
  {
    if |segs| > 0 && DecodeEntry(segs[0]).Ok? {
      var e := DecodeEntry(segs[0]).value;
      DecodeEntriesKeepsKeys(segs[1..], acc[e.0 := e.1]);
    }
  }

  /**
    * DeserializeString accepts a text exactly when every non-blank segment
    * is an entry, and then the map holds the key of every segment.
    */
  lemma AcceptedIffAllEntries(s: string)
    ensures Deserialize(s).Ok? <==> forall i :: 0 <= i < |Segments(s)| ==> DecodeEntry(Segments(s)[i]).Ok?
    ensures Deserialize(s).Ok? ==>
      forall i :: 0 <= i < |Segments(s)| ==> DecodeEntry(Segments(s)[i]).value.0 in Deserialize(s).value
  {
    DecodeEntriesOk(Segments(s), map[]);
  }

  /**
    * A segment with two ':'-fields whose key is not an int, whose value is not
    * Base64, or whose decoded value is not a stack makes the whole text corrupt.
    */
  lemma BadFieldRejected(s: string, i: nat)
    requires i < |Segments(s)| && |Split(Segments(s)[i], ':')| == 2
    requires var kvp := Split(Segments(s)[i], ':');
      ParseInt(kvp[0]).None? || DecodeText(kvp[1]).Err? || ItemStacks.Deserialize(DecodeText(kvp[1]).value).Err?
    ensures Deserialize(s) == Err(CorruptData)
  {
    BadEntryRejected(Segments(s), map[], i);
  }

  /** A non-blank segment that is not one "key:value" pair makes the whole text corrupt. */
  lemma BadEntryRejected(segs: seq<string>, acc: Equipment, i: nat)
    requires i < |segs| && DecodeEntry(segs[i]).Err?
    ensures DecodeEntries(segs, acc).Err?
  {
    DecodeEntriesOk(segs, acc);
  }

  /** A segment whose ':' count is not one is rejected. */
  lemma MalformedSegmentRejected(s: string, i: nat)
    requires i < |Segments(s)| && Occurrences(Segments(s)[i], ':') != 1
    ensures Deserialize(s).Err?
  {
    BadEntryRejected(Segments(s), map[], i);
  }

  /** An entry whose code names no slot is stored under the null key. */
  lemma UnknownCodeStoredUnderNull(code: int32, st: ItemStack)
    requires SlotOfIndex(code).None?
    ensures Deserialize(EntryText(code, st)) == Ok(map[None := st])
  {
    var e := EntryText(code, st);
    SplitWithoutDelimiter(e, ';');
    assert NonBlank([e]) == [e];
    assert Segments(e) == [e];
    EntryDecodes(code, st);
    assert DecodeEntries([e], map[]) == DecodeEntries([], map[None := st]);
  }
}
