# Loadout Saver: the loadout codecs and the loadout manager, in Dafny

Loadout Saver is a RuneLite plugin that keeps a player's named snapshots of
inventory and worn equipment ("loadouts"). It saves them as one text value
in the client's configuration store. This project models the plugin's core
and proves properties of the model:

- **Item stacks** (`ItemStackImpl`): `"<id>:<quantity>"`.
- **Inventories** (`InventoryImpl`): exactly 28 stacks. Each stack's text is
  Base64-encoded, and the tokens are joined with `:`.
- **Equipment** (`EquipmentImpl`): a map from equipment slot to stack.
  - Each entry is written as `"<slot code>:<Base64 of the stack>"`, and
    entries are joined with `;`.
  - A null slot key (an unknown slot code) is kept as the key `None`.
- **Loadouts** (`LoadoutImpl`): `"<name>;<Base64 inventory>:<Base64 equipment>:1"`.
  Capture from the client's containers is modelled too.
- **The stored collection** (`DataIO`): one loadout per line.
  - Writing it throws if any loadout throws.
  - Reading it is lenient: a line that does not decode is dropped.
- **The manager** (`LoadoutManager`): a class that owns the list of loadouts.
  - After each change it saves (when auto-save is on) and notifies its
    subscribers.
  - Saves and notifications are recorded in two ghost logs: the writes to
    the store, and the deliveries to subscribers.

The Java library behaviour the codecs rely on is modelled explicitly, in its
own modules:

- `String.split` with limit -1 and with limit 0, `String.join`, `strip`,
  `isBlank` and `Character.isWhitespace` (module `JavaText`).
- `Integer.toString` and `Integer.parseInt` on 32-bit `int` (module `Decimal`).
- The basic encoder and decoder of `java.util.Base64`, following section 4
  of RFC 4648 (module `Base64`).

The central facts are these:

- Base64 text never contains `:`, `;` or a line break, so every split in the
  format is unambiguous.
- Each level round-trips: item stack, inventory, equipment (for every
  iteration order of the map), loadout, and the whole stored collection.

Errors are values, `Result<T> = Ok(value) | Err(error)`. Each error kind
stands for one exception of the source:

- `CorruptData`: an `IllegalArgumentException` (including
  `NumberFormatException`) thrown by a decoder.
- `UnexpectedClientState`: capture with neither container available.
- `NullSlot`: the `NullPointerException` thrown when serialising an equipment
  entry with a null slot.

Files: `wrappers.dfy`, `java_text.dfy`, `decimal.dfy`, `base64.dfy`,
`client.dfy`, `item_stack.dfy`, `inventory.dfy`, `equipment.dfy`,
`loadout.dfy`, `data_io.dfy`, `loadout_manager.dfy`.

The model follows the code as written:

- **Unknown slot codes.** An unknown slot code in an equipment text is not
  rejected. `ID_TO_SLOT.get` yields null, and the stack is stored under the
  null key (`Equipments.UnknownCodeStoredUnderNull`).
- **Loadout names.** Names are not validated on capture or on decode. A name
  may hold `;` and `:` and still round-trip. Only leading whitespace (removed
  by `strip()`) and line breaks (which split the stored collection) stop a
  name from coming back unchanged (`Loadouts.RoundTrip`, `DataIO.Storable`).
- **The drop warning.** The warning of the collection reader counts blank
  lines as failures (see Findings).

## Model

| member | source | states |
|---|---|---|
| JavaText.Split | src/main/java/com/loadoutsaver/implementations/ItemStackImpl.java:50 | split with limit -1 always yields at least one piece, and no piece contains the delimiter |
| JavaText.OccurrencesZero | src/main/java/com/loadoutsaver/implementations/ItemStackImpl.java:50-51 | a text has no occurrence of a character iff the character is not in it |
| JavaText.OccurrencesAppend | src/main/java/com/loadoutsaver/implementations/ItemStackImpl.java:50-51 | occurrences add up over concatenation |
| JavaText.JoinOccurrences | src/main/java/com/loadoutsaver/implementations/InventoryImpl.java:88-89 | joining n delimiter-free pieces puts exactly n - 1 delimiters in the text (none for no pieces), and the text starts with the first piece |
| JavaText.SplitWithoutDelimiter | src/main/java/com/loadoutsaver/implementations/ItemStackImpl.java:50 | a text without the delimiter splits into itself alone |
| JavaText.SplitCount | src/main/java/com/loadoutsaver/implementations/ItemStackImpl.java:50-51 | split yields exactly one piece more than the text has delimiters, so a length check is a delimiter count |
| JavaText.SplitAround | src/main/java/com/loadoutsaver/implementations/EquipmentImpl.java:108 | splitting `a + d + b` gives the pieces of `a` followed by the pieces of `b` |
| JavaText.SplitJoin | src/main/java/com/loadoutsaver/implementations/InventoryImpl.java:89-99 | join then split is the identity on non-empty lists of delimiter-free pieces |
| JavaText.JoinSplit | src/main/java/com/loadoutsaver/implementations/LoadoutImpl.java:103-113 | split then join restores any text |
| JavaText.JoinAscii | src/main/java/com/loadoutsaver/implementations/InventoryImpl.java:82-90 | joining ASCII pieces with an ASCII delimiter gives ASCII text |
| JavaText.AsciiAround | src/main/java/com/loadoutsaver/implementations/EquipmentImpl.java:91-95 | ASCII text on both sides of an ASCII character makes ASCII text |
| JavaText.Around | src/main/java/com/loadoutsaver/implementations/LoadoutImpl.java:98 | in `x + c + t`, `x` is the prefix and `c` the next character, and the characters are exactly those of `x`, `c` and `t` |
| JavaText.DropTrailingEmpty | src/main/java/com/loadoutsaver/DataIO.java:27 | split with limit 0 keeps a prefix of the pieces whose last piece, if any, is non-empty, and every piece it drops is empty |
| JavaText.SplitDroppingTrailingPrefix | src/main/java/com/loadoutsaver/DataIO.java:27 | split with limit 0 yields a prefix of the pieces of split with limit -1, drops only empty pieces, and no piece it keeps contains the delimiter |
| JavaText.WhitespaceExamples | src/main/java/com/loadoutsaver/implementations/LoadoutImpl.java:103 | space, tab, line feed and carriage return are whitespace; the no-break spaces U+00A0, U+2007 and U+202F, letters, digits and '=' are not |
| JavaText.BlankIffStripsToEmpty | src/main/java/com/loadoutsaver/DataIO.java:29 | isBlank holds exactly when strip leaves nothing |
| JavaText.StripShape | src/main/java/com/loadoutsaver/implementations/LoadoutImpl.java:103 | strip's result has no leading or trailing whitespace and is a prefix of the text with its leading whitespace removed |
| JavaText.StripLeading | src/main/java/com/loadoutsaver/implementations/LoadoutImpl.java:103 | the result is a suffix of the input that does not start with whitespace, and everything cut off is whitespace |
| JavaText.StripTrailing | src/main/java/com/loadoutsaver/implementations/LoadoutImpl.java:103 | the result is a prefix of the input that does not end with whitespace, and everything cut off is whitespace |
| JavaText.StripUnchanged | src/main/java/com/loadoutsaver/implementations/LoadoutImpl.java:103 | strip leaves text without leading or trailing whitespace unchanged |
| JavaText.StripSkipsLeadingWhitespace | src/main/java/com/loadoutsaver/implementations/LoadoutImpl.java:103 | a leading whitespace character makes no difference to strip |
| JavaText.NonBlank | src/main/java/com/loadoutsaver/DataIO.java:28-30 | the blank filter keeps at most all pieces, and only non-blank pieces taken from the input |
| JavaText.NonBlankAppend | src/main/java/com/loadoutsaver/implementations/EquipmentImpl.java:108 | the blank filter distributes over concatenation |
| JavaText.NonBlankAll | src/main/java/com/loadoutsaver/DataIO.java:28-30 | the blank filter keeps every piece when none is blank |
| Decimal.NatToDecimal | src/main/java/com/loadoutsaver/implementations/ItemStackImpl.java:45 | the decimal text of a natural number is a non-empty run of digits, with a leading '0' only for 0 itself ("0") |
| Decimal.IntToString | src/main/java/com/loadoutsaver/implementations/ItemStackImpl.java:45 | Integer.toString is non-empty and made of decimal digits, with a leading minus exactly for negative numbers; it is canonical: "0" is the only text starting with '0', and no '0' follows the minus |
| Decimal.ParseInt | src/main/java/com/loadoutsaver/implementations/ItemStackImpl.java:55 | parseInt accepts exactly a numeral (a non-empty text of digits with an optional leading sign) whose signed value lies in the 32-bit range, and then yields that value; everything else throws |
| Decimal.DigitsOfNat | src/main/java/com/loadoutsaver/implementations/ItemStackImpl.java:45-55 | the value of the decimal digits of n is n |
| Decimal.ParseIntToString | src/main/java/com/loadoutsaver/implementations/ItemStackImpl.java:45-55 | parseInt(toString(n)) == n for every 32-bit n, negatives included |
| Decimal.IntToStringExamples | src/main/java/com/loadoutsaver/implementations/ItemStackImpl.java:45 | Integer.toString of 1205, 1, -1 and 0 |
| Base64.CharOf | src/main/java/com/loadoutsaver/implementations/InventoryImpl.java:87 | every six-bit value maps to an alphabet character |
| Base64.ValueOf | src/main/java/com/loadoutsaver/implementations/InventoryImpl.java:101 | an alphabet character has a six-bit value, and CharOf maps that value back to the character |
| Base64.ValueOfCharOf | src/main/java/com/loadoutsaver/implementations/InventoryImpl.java:87-101 | ValueOf inverts CharOf |
| Base64.EncodeUnit | src/main/java/com/loadoutsaver/implementations/InventoryImpl.java:87 | three bytes become four encoder characters |
| Base64.EncodeFinal | src/main/java/com/loadoutsaver/implementations/InventoryImpl.java:87 | one or two final bytes become four characters: two alphabet characters, then '=' in the third place exactly for one byte, and '=' always in the fourth |
| Base64.Encode | src/main/java/com/loadoutsaver/implementations/InventoryImpl.java:87 | the encoder's output length is a multiple of 4 and it uses only the alphabet and '=' |
| Base64.Decode | src/main/java/com/loadoutsaver/implementations/InventoryImpl.java:101 | the decoder accepts only alphabet and '=' characters, and never a length of 1 modulo 4 |
| Base64.DecodeFinal | src/main/java/com/loadoutsaver/implementations/InventoryImpl.java:101 | a final unit is accepted only as 2 to 4 encoder characters |
| Base64.UnitRoundTrip | src/main/java/com/loadoutsaver/implementations/InventoryImpl.java:87-101 | decoding the four values of a three-byte unit gives the three bytes back |
| Base64.DecodeEncode | src/main/java/com/loadoutsaver/implementations/InventoryImpl.java:87-101 | decode(encode(b)) == b for every byte sequence |
| Base64.EncodedCharIsNoSeparator | src/main/java/com/loadoutsaver/implementations/LoadoutImpl.java:94-98 | no encoder character is ':', ';', a line break or whitespace, and each is ASCII |
| Base64.EncodedTextHasNoSeparator | src/main/java/com/loadoutsaver/implementations/LoadoutImpl.java:94-98 | Base64 text contains no ':', ';' or line break, and has no leading or trailing whitespace |
| Base64.AsciiBytes | src/main/java/com/loadoutsaver/implementations/InventoryImpl.java:85 | getBytes of ASCII text is one byte per character, with the character's code |
| Base64.Latin1Text | src/main/java/com/loadoutsaver/implementations/InventoryImpl.java:103 | new String(bytes) is one character per byte, with the byte's code |
| Base64.EncodeText | src/main/java/com/loadoutsaver/implementations/LoadoutImpl.java:94 | Base64 of the bytes of ASCII text is ASCII, has no ':', ';' or line break, and no leading or trailing whitespace |
| Base64.DecodeText | src/main/java/com/loadoutsaver/implementations/LoadoutImpl.java:121 | decoding to text fails (CorruptData) exactly when the Base64 decoder rejects the input, and otherwise gives the decoded bytes read as characters |
| Base64.TextRoundTrip | src/main/java/com/loadoutsaver/implementations/LoadoutImpl.java:94-122 | new String(decode(encode(s.getBytes()))) == s for ASCII text s |
| Client.ItemAt | src/main/java/com/loadoutsaver/implementations/InventoryImpl.java:48 | getItem is null past the end of the container |
| ItemStacks.FromItem | src/main/java/com/loadoutsaver/implementations/InventoryImpl.java:49-54 | a null item becomes the empty stack (-1, 0); any other item keeps its id and quantity |
| ItemStacks.Serialize | src/main/java/com/loadoutsaver/implementations/ItemStackImpl.java:45 | the text of a stack is ASCII |
| ItemStacks.Deserialize | src/main/java/com/loadoutsaver/implementations/ItemStackImpl.java:49-56 | every failure is CorruptData; an accepted text has exactly one ':' and otherwise only digits and signs |
| ItemStacks.AcceptedIff | src/main/java/com/loadoutsaver/implementations/ItemStackImpl.java:49-56 | a text is accepted iff it splits on ':' into two fields that parseInt accepts, and then the id and quantity are the signed values of those fields |
| ItemStacks.OutOfRangeRejected | src/main/java/com/loadoutsaver/implementations/ItemStackImpl.java:55 | a numeral field outside the 32-bit range makes the stack text corrupt |
| ItemStacks.SerializeFields | src/main/java/com/loadoutsaver/implementations/ItemStackImpl.java:45-50 | the text of a stack splits on ':' into exactly the id's text and the quantity's, with one ':' |
| ItemStacks.RoundTrip | src/main/java/com/loadoutsaver/implementations/ItemStackImpl.java:41-56 | DeserializeString(SerializeString(s)) == s for every pair of 32-bit values |
| ItemStacks.SerializeExamples | src/main/java/com/loadoutsaver/implementations/ItemStackImpl.java:45 | the stack (1205, 1) is written "1205:1" and the empty stack "-1:0" |
| Inventories.NewInventory | src/main/java/com/loadoutsaver/implementations/InventoryImpl.java:22-27 | the constructor accepts exactly 28 stacks, unchanged; any other count fails |
| Inventories.ParseInventory | src/main/java/com/loadoutsaver/implementations/InventoryImpl.java:33-58 | always 28 slots: all empty for a null container, otherwise slot i holds the stack of item i (empty where null or past the container's end) |
| Inventories.Tokens | src/main/java/com/loadoutsaver/implementations/InventoryImpl.java:82-87 | one Base64 token per stack, in slot order |
| Inventories.Serialize | src/main/java/com/loadoutsaver/implementations/InventoryImpl.java:78-91 | the inventory text is ASCII |
| Inventories.DecodeToken | src/main/java/com/loadoutsaver/implementations/InventoryImpl.java:100-105 | a token decodes iff it is Base64 and its text is a stack's text, and then to that stack |
| Inventories.DecodeTokens | src/main/java/com/loadoutsaver/implementations/InventoryImpl.java:100-106 | on success, one stack per token |
| Inventories.DecodeTokensEach | src/main/java/com/loadoutsaver/implementations/InventoryImpl.java:100-106 | the tokens decode iff every token does, and then each stack is the decode of the token in its position |
| Inventories.Deserialize | src/main/java/com/loadoutsaver/implementations/InventoryImpl.java:98-109 | an accepted text has exactly 27 colons, so 28 tokens, and slot i holds the decode of token i |
| Inventories.SerializeTokens | src/main/java/com/loadoutsaver/implementations/InventoryImpl.java:82-99 | the inventory text splits on ':' into exactly its 28 tokens, so it has 27 colons |
| Inventories.TokenRoundTrip | src/main/java/com/loadoutsaver/implementations/InventoryImpl.java:82-105 | one stack's token decodes to the stack's text, and that text to the stack |
| Inventories.DecodeTokensOfTokens | src/main/java/com/loadoutsaver/implementations/InventoryImpl.java:82-106 | decoding the tokens of any list of stacks gives the list back |
| Inventories.RoundTrip | src/main/java/com/loadoutsaver/implementations/InventoryImpl.java:78-108 | DeserializeString(SerializeString(inv)) == inv, slot by slot |
| Inventories.WrongSlotCountRejected | src/main/java/com/loadoutsaver/implementations/InventoryImpl.java:99-108 | text with any number of colons other than 27 is rejected |
| Inventories.BadTokenRejected | src/main/java/com/loadoutsaver/implementations/InventoryImpl.java:100-106 | one token that is not Base64, or whose text is not a stack, rejects the whole inventory |
| Equipments.SlotOfIndex | src/main/java/com/loadoutsaver/implementations/EquipmentImpl.java:63-67 | ID_TO_SLOT.get(i) is a slot whose index is i, if any |
| Equipments.SlotOfSlotIdx | src/main/java/com/loadoutsaver/implementations/EquipmentImpl.java:63-67 | every slot is found again under its own index |
| Equipments.SlotsByIndex | src/main/java/com/loadoutsaver/implementations/EquipmentImpl.java:63-67 | ID_TO_SLOT inverts getSlotIdx on all slots |
| Equipments.SlotIndices | src/main/java/com/loadoutsaver/implementations/EquipmentImpl.java:63-67 | exactly the codes 0-5, 7, 9, 10, 12 and 13 name a slot |
| Equipments.ParseEquipment | src/main/java/com/loadoutsaver/implementations/EquipmentImpl.java:38-58 | an empty map for a null container; otherwise every position of the container, in order, put into the map |
| Equipments.EquipmentOfSlot | src/main/java/com/loadoutsaver/implementations/EquipmentImpl.java:48-55 | a slot is in the parsed map iff the container holds an item at the slot's index, and then it maps to that item's stack |
| Equipments.EquipmentOfNull | src/main/java/com/loadoutsaver/implementations/EquipmentImpl.java:48-55 | the null key is in the parsed map iff the container holds an item at an index no slot has |
| Equipments.EntryText | src/main/java/com/loadoutsaver/implementations/EquipmentImpl.java:91-95 | an entry is non-empty ASCII with no ';' and does not start with whitespace |
| Equipments.EntriesIn | src/main/java/com/loadoutsaver/implementations/EquipmentImpl.java:90-95 | one entry per key of the iteration order, built from that key's slot index and stack |
| Equipments.SerializeIn | src/main/java/com/loadoutsaver/implementations/EquipmentImpl.java:86-97 | for any iteration order of the map: serialising throws (NullSlot) iff the map has the null key; otherwise the text is ASCII, empty for the empty map, and splits on ';' into exactly the entries, one per key in iteration order |
| Equipments.PresentBelow | src/main/java/com/loadoutsaver/implementations/EquipmentImpl.java:90 | exactly the map's slot keys with index below n, by strictly increasing index |
| Equipments.CanonicalOrder | src/main/java/com/loadoutsaver/implementations/EquipmentImpl.java:90 | the order used is an iteration order of the map: every key exactly once |
| Equipments.Serialize | src/main/java/com/loadoutsaver/implementations/EquipmentImpl.java:86-97 | serialising throws (NullSlot) iff the map has the null key; otherwise the text is ASCII and its non-blank segments are the entries, one per key |
| Equipments.EmptyEquipmentText | src/main/java/com/loadoutsaver/implementations/EquipmentImpl.java:90-96 | the empty map is written as empty text |
| Equipments.DecodeEntry | src/main/java/com/loadoutsaver/implementations/EquipmentImpl.java:112-119 | every failure is CorruptData; an accepted entry has exactly one ':' |
| Equipments.EntryAcceptedIff | src/main/java/com/loadoutsaver/implementations/EquipmentImpl.java:112-119 | an entry is accepted iff it has two ':'-fields, the key parses as an int and the value is Base64 of a stack's text; it then holds the slot the code names (null if none) and that stack |
| Equipments.DecodeEntries | src/main/java/com/loadoutsaver/implementations/EquipmentImpl.java:111-121 | every failure of the loop is CorruptData (see DecodeEntriesKeepsKeys, DecodeEntriesOk and DecodeEntriesFrom for what it builds) |
| Equipments.DecodeEntriesOk | src/main/java/com/loadoutsaver/implementations/EquipmentImpl.java:111-121 | the loop succeeds iff every segment is an entry, and then the key of every segment is in the map |
| Equipments.DecodeEntriesKeepsKeys | src/main/java/com/loadoutsaver/implementations/EquipmentImpl.java:111-121 | the loop never removes a key put into the map earlier (put only adds or replaces) |
| Equipments.Segments | src/main/java/com/loadoutsaver/implementations/EquipmentImpl.java:108 | at most as many segments as ';'-pieces, each free of ';' and not blank |
| Equipments.Deserialize | src/main/java/com/loadoutsaver/implementations/EquipmentImpl.java:106-124 | every failure is CorruptData |
| Equipments.AcceptedIffAllEntries | src/main/java/com/loadoutsaver/implementations/EquipmentImpl.java:106-124 | a text is accepted iff every non-blank segment is an entry, and then the map holds the key of every segment |
| Equipments.BadFieldRejected | src/main/java/com/loadoutsaver/implementations/EquipmentImpl.java:117-119 | a segment with two ':'-fields whose key is not an int, whose value is not Base64, or whose decoded value is not a stack makes the text corrupt |
| Equipments.DeserializeString | src/main/java/com/loadoutsaver/implementations/EquipmentImpl.java:106-124 | the loop over the non-blank segments computes the decode `Deserialize`, stopping at the first bad entry |
| Equipments.EntryFields | src/main/java/com/loadoutsaver/implementations/EquipmentImpl.java:91-95 | an entry splits on ':' into its slot code's text and its token |
| Equipments.EntryDecodes | src/main/java/com/loadoutsaver/implementations/EquipmentImpl.java:112-119 | an entry decodes to the slot its code names (null if none) and its stack |
| Equipments.DecodeEntriesIn | src/main/java/com/loadoutsaver/implementations/EquipmentImpl.java:111-121 | decoding the entries of an iteration order onto a map puts every listed key with its stack |
| Equipments.SegmentsOfJoin | src/main/java/com/loadoutsaver/implementations/EquipmentImpl.java:96-108 | the segments of a ';'-join of non-blank, ';'-free entries are those entries |
| Equipments.OverlayAll | src/main/java/com/loadoutsaver/implementations/EquipmentImpl.java:109-120 | putting every key of the map into an empty map rebuilds the map |
| Equipments.RoundTripIn | src/main/java/com/loadoutsaver/implementations/EquipmentImpl.java:86-124 | for every iteration order of a map without the null key, the text decodes back to the map |
| Equipments.RoundTrip | src/main/java/com/loadoutsaver/implementations/EquipmentImpl.java:86-124 | DeserializeString(SerializeString(eq)) == eq whenever the null key is absent |
| Equipments.EmptyTexts | src/main/java/com/loadoutsaver/implementations/EquipmentImpl.java:108 | "" and ";;" decode to the empty map |
| Equipments.SegmentsAround | src/main/java/com/loadoutsaver/implementations/EquipmentImpl.java:108 | the segments of `a;b` are those of `a` followed by those of `b` |
| Equipments.BlankSegmentIgnored | src/main/java/com/loadoutsaver/implementations/EquipmentImpl.java:108 | inserting a blank segment does not change the decoded map |
| Equipments.DecodeEntriesFrom | src/main/java/com/loadoutsaver/implementations/EquipmentImpl.java:111-121 | decoding onto a map succeeds iff decoding onto the empty map does, and then lays the decoded map over it |
| Equipments.DecodeEntriesAppend | src/main/java/com/loadoutsaver/implementations/EquipmentImpl.java:111-121 | decoding two segment lists in a row decodes the first, then the second on top of the result |
| Equipments.LaterEntryWins | src/main/java/com/loadoutsaver/implementations/EquipmentImpl.java:111-121 | `s;t` decodes to the map of `s` overridden by the map of `t`, since put replaces earlier values |
| Equipments.BadEntryRejected | src/main/java/com/loadoutsaver/implementations/EquipmentImpl.java:111-121 | any segment that fails to decode rejects the whole list |
| Equipments.MalformedSegmentRejected | src/main/java/com/loadoutsaver/implementations/EquipmentImpl.java:112-116 | a non-blank segment without exactly one ':' rejects the whole text |
| Equipments.UnknownCodeStoredUnderNull | src/main/java/com/loadoutsaver/implementations/EquipmentImpl.java:117-120 | an entry whose code names no slot decodes to the null key holding its stack |
| Loadouts.Capture | src/main/java/com/loadoutsaver/implementations/LoadoutImpl.java:22-45 | fails (UnexpectedClientState) iff both containers are null; otherwise the given name, the 28 parsed inventory slots and the parsed equipment |
| Loadouts.Tail | src/main/java/com/loadoutsaver/implementations/LoadoutImpl.java:94-98 | the part after the name is non-empty, has no ';' or line break, and ends in a non-whitespace character |
| Loadouts.Serialize | src/main/java/com/loadoutsaver/implementations/LoadoutImpl.java:90-99 | throws iff the equipment has the null key; otherwise the text is the name, then ';', and has a line break iff the name does |
| Loadouts.TailFields | src/main/java/com/loadoutsaver/implementations/LoadoutImpl.java:94-98 | after the name and ';' comes a ';'-free tail that splits on ':' into exactly the Base64 of the inventory's text, the Base64 of the equipment's text, and "1" |
| Loadouts.SerializedText | src/main/java/com/loadoutsaver/implementations/LoadoutImpl.java:94-98 | for a map without the null key, the loadout text is name;inventory-blob:equipment-blob:1 |
| Loadouts.Fields | src/main/java/com/loadoutsaver/implementations/LoadoutImpl.java:103-120 | an accepted framing yields a name and exactly three ':'-fields |
| Loadouts.Deserialize | src/main/java/com/loadoutsaver/implementations/LoadoutImpl.java:101-134 | an accepted text has an accepted framing, keeps the framed name as the loadout's name, and has version "1" |
| Loadouts.FromFields | src/main/java/com/loadoutsaver/implementations/LoadoutImpl.java:121-133 | succeeds only on an accepted framing whose third field is "1", and keeps the framed name |
| Loadouts.AcceptedParts | src/main/java/com/loadoutsaver/implementations/LoadoutImpl.java:121-133 | in an accepted text, each blob is Base64 whose text decodes to the loadout's inventory and to its equipment map |
| Loadouts.SplitName | src/main/java/com/loadoutsaver/implementations/LoadoutImpl.java:103-113 | for a tail without ';', the split rejoins to the name whatever ';' the name holds, and its last piece is the tail |
| Loadouts.SplitTail | src/main/java/com/loadoutsaver/implementations/LoadoutImpl.java:115 | three ':'-free fields joined with ':' split back into those three |
| Loadouts.FieldsOf | src/main/java/com/loadoutsaver/implementations/LoadoutImpl.java:103-120 | a stripped `name;a:b:v` with ':'/';'-free fields frames as the name and [a, b, v] |
| Loadouts.SerializedIsStripped | src/main/java/com/loadoutsaver/implementations/LoadoutImpl.java:98-103 | strip leaves a loadout text alone when the name has no leading whitespace |
| Loadouts.DeserializeParts | src/main/java/com/loadoutsaver/implementations/LoadoutImpl.java:121-133 | version "1" and two blobs that decode give the loadout they hold |
| Loadouts.RoundTrip | src/main/java/com/loadoutsaver/implementations/LoadoutImpl.java:90-134 | DeserializeString(SerializeString(l)) == l whenever the name has no leading whitespace and the equipment has no null key |
| Loadouts.LeadingWhitespaceIgnored | src/main/java/com/loadoutsaver/implementations/LoadoutImpl.java:103 | leading whitespace does not change what a text decodes to |
| Loadouts.NoSeparatorRejected | src/main/java/com/loadoutsaver/implementations/LoadoutImpl.java:103-108 | a stripped text without ';' is rejected |
| Loadouts.TailFieldCountChecked | src/main/java/com/loadoutsaver/implementations/LoadoutImpl.java:115-120 | a last ';'-piece without exactly two ':' is rejected |
| Loadouts.VersionChecked | src/main/java/com/loadoutsaver/implementations/LoadoutImpl.java:123-128 | any version other than "1" is rejected |
| Loadouts.BadBlobRejected | src/main/java/com/loadoutsaver/implementations/LoadoutImpl.java:121-122 | a blob that is not Base64 is rejected |
| Loadouts.NestedDecodeRejected | src/main/java/com/loadoutsaver/implementations/LoadoutImpl.java:130-131 | Base64 blobs whose texts are not an inventory, or not an equipment map, make the loadout corrupt |
| DataIO.LinesShape | src/main/java/com/loadoutsaver/DataIO.java:27 | the lines are the pieces between line breaks, in order, none holding a line break, with only empty pieces dropped at the end |
| DataIO.DecodeEach | src/main/java/com/loadoutsaver/DataIO.java:30-38 | the i-th result is the decode of the i-th line |
| DataIO.Kept | src/main/java/com/loadoutsaver/DataIO.java:39 | the nonNull filter keeps at most all values, all of them iff none failed, and only decoded values |
| DataIO.KeptCount | src/main/java/com/loadoutsaver/DataIO.java:39-43 | every result is either kept or counted as a failure: kept + failures = all |
| DataIO.ParsedLines | src/main/java/com/loadoutsaver/DataIO.java:28-39 | every parsed loadout is the decode of some non-blank line |
| DataIO.ParsedCount | src/main/java/com/loadoutsaver/DataIO.java:28-39 | the parsed loadouts plus the non-blank lines that fail to decode make up all non-blank lines |
| DataIO.WarningCounts | src/main/java/com/loadoutsaver/DataIO.java:40-45 | as written, the warning is given iff a line is blank or a non-blank line fails, and reports blank lines plus failures, out of all lines |
| DataIO.KeptAll | src/main/java/com/loadoutsaver/DataIO.java:39 | when every line decodes, all values are kept, in order |
| DataIO.KeptAppend | src/main/java/com/loadoutsaver/DataIO.java:28-39 | the filter distributes over concatenation |
| DataIO.FailureDropped | src/main/java/com/loadoutsaver/DataIO.java:31-39 | a failing line is dropped and the lines around it are kept, in order |
| Wrappers.Collect | src/main/java/com/loadoutsaver/DataIO.java:50 | collecting fails iff some element failed; otherwise it holds all the values, in order |
| DataIO.SerializeEach | src/main/java/com/loadoutsaver/DataIO.java:50 | the i-th result is the text of the i-th loadout |
| DataIO.FullSerialize | src/main/java/com/loadoutsaver/DataIO.java:49-52 | fails iff some loadout's equipment has the null key |
| DataIO.StorableLine | src/main/java/com/loadoutsaver/DataIO.java:49-52 | a storable loadout's text is one non-blank line that decodes back to it |
| DataIO.LinesOfJoin | src/main/java/com/loadoutsaver/DataIO.java:26-52 | splitting a line-break join of non-empty lines gives them back; no lines give one empty line |
| DataIO.SavedLines | src/main/java/com/loadoutsaver/DataIO.java:26-52 | the non-blank lines of a saved collection are exactly the loadouts' texts |
| DataIO.RoundTrip | src/main/java/com/loadoutsaver/DataIO.java:26-52 | Parse(FullSerialize(ls)) == ls for storable loadouts, order included |
| DataIO.DropReport | src/main/java/com/loadoutsaver/DataIO.java:40-45 | corrected warning, from the decode results of the non-blank lines: given exactly when one of them failed, reporting the number of failures out of the number of non-blank lines |
| DataIO.KeptShorter | src/main/java/com/loadoutsaver/DataIO.java:39-40 | the nonNull filter keeps fewer values than it is given iff one of them failed |
| DataIO.FailureShortensKept | src/main/java/com/loadoutsaver/DataIO.java:28-40 | Parse keeps fewer loadouts than it has candidate lines iff some line fails to decode |
| DataIO.EmptyStoreWarns | src/main/java/com/loadoutsaver/DataIO.java:26-52 | as written, the empty collection saves as "", reads back as no loadouts, yet warns "1 out of 1" |
| DataIO.NoReportForSavedLoadouts | src/main/java/com/loadoutsaver/DataIO.java:26-52 | with the corrected warning, the saved text of storable loadouts (none included) reads back without a warning |
| LoadoutManagement.Values | src/main/java/com/loadoutsaver/LoadoutManager.java:17 | the loadouts the references point to, in order |
| LoadoutManagement.FirstIndex | src/main/java/com/loadoutsaver/LoadoutManager.java:69 | the first position holding the element; none iff it is absent |
| LoadoutManagement.RemoveFirst | src/main/java/com/loadoutsaver/LoadoutManager.java:69 | List.remove(Object): unchanged when absent; otherwise exactly one copy fewer (multiset), taken at the first occurrence, with the elements before it in place and the rest moved up |
| LoadoutManagement.NewRefs | src/main/java/com/loadoutsaver/LoadoutManager.java:24-26 | one new loadout object per value, in order |
| LoadoutManagement.SavedReloads | src/main/java/com/loadoutsaver/LoadoutManager.java:24-46 | what save writes for storable loadouts is parsed back as the same list |
| LoadoutManagement.RecipientsAppend | src/main/java/com/loadoutsaver/LoadoutManager.java:63-65 | one more delivery adds exactly its subscriber to the recipients |
| LoadoutManagement.PendingStep | src/main/java/com/loadoutsaver/LoadoutManager.java:63-65 | one delivery to a remaining subscriber keeps the notification loop's invariant |
| LoadoutManagement.PendingDone | src/main/java/com/loadoutsaver/LoadoutManager.java:63-65 | a finished notification loop has broadcast the list to every subscriber once |
| LoadoutManagement.UnsubscribedNotNotified | src/main/java/com/loadoutsaver/LoadoutManager.java:97-99 | a view outside the subscriber set receives nothing from a broadcast |
| LoadoutManagement.LoadoutManager.constructor | src/main/java/com/loadoutsaver/LoadoutManager.java:24-26 | the list is Parse of the stored text, as new objects; nothing is subscribed, written or delivered |
| LoadoutManagement.LoadoutManager.GetLoadouts | src/main/java/com/loadoutsaver/LoadoutManager.java:54-56 | the current list of loadouts, in order |
| LoadoutManagement.LoadoutManager.Size | src/main/java/com/loadoutsaver/LoadoutManager.java:88-90 | the number of loadouts in the list |
| LoadoutManagement.LoadoutManager.Save | src/main/java/com/loadoutsaver/LoadoutManager.java:32-46 | one write of FullSerialize(list) under group "LoadoutSaver" and key "savedloadouts", or no write and NullSlot when serialising throws; list, subscribers and deliveries unchanged; for storable loadouts it succeeds and the written text parses back to the list |
| LoadoutManagement.LoadoutManager.Publish | src/main/java/com/loadoutsaver/LoadoutManager.java:63-65 | every subscriber receives the current list exactly once, nobody else receives anything, and nothing else changes |
| LoadoutManagement.LoadoutManager.SaveAndPublish | src/main/java/com/loadoutsaver/LoadoutManager.java:60-65 | with auto-save on: one save, then the broadcast unless the save threw; with auto-save off: no write, then the broadcast |
| LoadoutManagement.LoadoutManager.AddLoadout | src/main/java/com/loadoutsaver/LoadoutManager.java:58-66 | the loadout is appended and the others keep their order; then save and notify as in SaveAndPublish |
| LoadoutManagement.LoadoutManager.RemoveLoadout | src/main/java/com/loadoutsaver/LoadoutManager.java:68-76 | the first reference to that object leaves the list (nothing changes if absent); then save and notify as in SaveAndPublish |
| LoadoutManagement.LoadoutManager.ClearLoadouts | src/main/java/com/loadoutsaver/LoadoutManager.java:78-86 | the list becomes empty; then save and notify as in SaveAndPublish |
| LoadoutManagement.LoadoutManager.Subscribe | src/main/java/com/loadoutsaver/LoadoutManager.java:92-95 | the subscriber joins the set (no duplicates) and at once receives the current list; nothing is written |
| LoadoutManagement.LoadoutManager.UnSubscribe | src/main/java/com/loadoutsaver/LoadoutManager.java:97-99 | the subscriber leaves the set; nothing is written or delivered |

## Left out

- Printing to standard output and standard error is not modelled: the progress messages of save, the "Corrupted …" messages and the text of the parse warning. The warning's numbers are modelled (`DataIO.ParseWarning`).
- The `Deserializer` singletons and the guards that throw when a property of a singleton is read are left out. The model has values and separate decode functions instead of singleton objects.
- `InventoryImpl.GetItems` warns on a length other than 28. The `Inventory` type makes that length impossible.
- The RuneLite client is represented only by its item containers, as optional sequences of optional items. The live client, the `InventoryID` lookup and `ItemContainer.size()` as the client reports it are not modelled.
- `net.runelite.api.EquipmentInventorySlot` is not part of this model. Its slot codes (head 0, cape 1, amulet 2, weapon 3, body 4, shield 5, legs 7, gloves 9, boots 10, ring 12, ammo 13) are written out in `Equipments.SlotIdx`.
- Client.ItemAt: assumes `getItem` returns null past the end of a container, because the client is not part of this model.
- Equipments.Serialize: writes the entries in one fixed order (null key first, then by slot code) instead of `HashMap`'s unspecified order. `Equipments.SerializeIn` and `Equipments.RoundTripIn` cover every iteration order.
- Base64.DecodeText: `new String(bytes)` uses the platform charset, which is modelled as Latin-1 (one character per byte). All text the codecs encode is ASCII (proved), and there every common charset agrees. On foreign input the charsets differ: under UTF-8, the default from JDK 18, decoded text can hold characters such as U+0661 (a digit to `Integer.parseInt`) or U+2003 (whitespace to `strip` and `isBlank`) that Latin-1 never yields. The rejection lemmas about decoded blobs (`Inventories.BadTokenRejected`, `Equipments.BadFieldRejected`, `Loadouts.NestedDecodeRejected`) hold under the Latin-1 reading only.
- Decimal.ParseInt: accepts ASCII digits only. `Integer.parseInt` also accepts other Unicode decimal digits (such as U+0661). Under the Latin-1 reading of decoded bytes no such digit can occur, since Latin-1 has no digits besides the ASCII ones; under a UTF-8 platform charset one can, and then `ParseInt` and the lemmas built on it reject texts that the code accepts.
- The `ENCODING` constant of `DataIO` is unused by the code and is not modelled.
- `LoadoutManager.save(ConfigManager)` can write to a store other than the manager's own. The model has one store: the manager's write log.
- The configuration is read at each change. `config.autoSave()` becomes the `autoSave` parameter of each change, and `config.loadouts()` the constructor's `stored` argument.
- What a subscriber's `Update` does is not modelled; only the delivery is recorded. A subscriber that calls back into the manager during `Update` (re-entrance) is not modelled either.
- `GetLoadouts` returns a lazy `Stream`. It is modelled as the list itself, because the stream is consumed while the list is unchanged.
- The plugin's lifecycle, its dependency-injection wiring and the Swing panels are not modelled. Only the two configuration constants of `LoadoutSaverPlugin` are kept.
- Threads are not modelled. The manager is used from one thread.

## Findings

| source | as written | input that shows it | evidently intended | confidence | as-written member | corrected member |
|---|---|---|---|---|---|---|
| src/main/java/com/loadoutsaver/DataIO.java:27-45 | The warning compares the number of loadouts with the number of all lines, blank lines included. | The empty collection, which `FullSerialize` writes as "". `"".split("\n")` is one empty line, so reading it back warns "failed to parse 1 out of 1 loadouts" although nothing failed. Any blank line in the stored text has the same effect. | Warn only when a non-blank line fails to decode, counting dropped lines out of non-blank lines. | not executed | DataIO.EmptyStoreWarns | DataIO.NoReportForSavedLoadouts |
