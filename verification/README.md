# Wireless Tools and compat layer: a verified model

This project models, in Dafny 4.11, the stateful parts of a Linux mesh-networking distribution: the
event-stream decoder, scan builder and text codecs of the wireless tools library, the information-element
printer of `iwlist`, the interface-mapping resolution of `ifrename`, and the PM-QoS and device-address
code of the kernel compatibility layer. Operations that change state are classes and methods with loops,
each proved against a function on values; the properties are lemmas about those functions.
`dafny verify dfyconfig.toml` checks everything.

What is proved, component by component:

- **Event stream** (`WirelessTables`, `EventStream`, `EventSpec`, `EventEnd`, `PointEvents`, `EventWire`).
  `StreamDescr.Extract` is the cursor with its `current` and `value`, for `we_version` above 18. On any bytes,
  calling it until the first non-positive return gives exactly the tokens of an event-by-event parser, at most
  one for every four bytes, and ends with the code that parser gives. `PointEvents` says what the decoder makes
  of any pointer event, packed or with the 4+4 padding of a 64-bit kernel, and when the two agree. `EventWire`
  encodes events as a 32-bit and as a 64-bit kernel writes them and proves exactly when decoding gives them
  back: payload events when their length is that of the payload and allowed, events of values when the decoder
  reads their length as that of their layout.
- **Scan** (`Scan`, `ScanWire`, `ScanReport`, `PrintState`). The linked list of cells built from the tokens: one node for
  every access point, each the fold of exactly its own segment, with the greatest of its rates.
  `ScanReport.ScanReports` composes decoder and builder: access points reported by their numbers, encoded in
  either layout, are scanned into one cell each that holds just those numbers, and the first of the greatest
  rates. The printer's value index is the place of a rate among the values of its event.
- **PM-QoS** (`PmQos`, `PmQosThreads`). Sequential histories, and interleavings of calls that release the
  lock between changing the list and recomputing the target, and again before the notifiers are called. In
  every interleaving each change of the target is reported exactly once. The scheduler can bring no report out of
  order, whichever it makes next at any point of a run, exactly when no target is changed while a report is still
  to come; with the same overtake one run reports out of order and another happens not to.
- **Device addresses** (`DevAddr`, `McSync`, `McUndo`). Reference counts against the history of calls, with the
  exact call that breaks the correspondence; conservation of users by `dev_mc_sync` and `dev_mc_unsync`, and
  exactly when the second undoes the first.
- **Codecs** (`Text`, `KeyCodec`, `MacCodec`, `Frequency`). Round trips for keys and addresses, what exactly
  is accepted as an address and as a key, and the accuracy of both builds of the frequency format over the reals.
- **Interface names and mappings** (`IfName`, `ConfigText`, `Mapping`, `MappingFind`, `IfRename`). What a wildcard
  matches; how the text of a configuration is divided into lines, selectors, modifiers and quoted values, and that
  a written configuration reads back as it is meant; that asking only about the selectors in use finds the mapping
  that asking everything finds, and that it is the mapping of the last accepted configuration line that holds of
  the interface. `IfRename.Resolve` is the program up to the renaming: from the text of a configuration and an
  interface to that line's mapping.
- **Information elements** (`InfoElement`). The decoder as what it prints, its bounds, exactly when they
  lie inside the buffer, and an encoder it inverts (section 7.3.2.25 of IEEE 802.11-2007, and the vendor form that
  preceded it).

Where the code and its own comments disagree, the model follows the code:

- `dev_mc_unsync` is documented to remove all addresses that `dev_mc_sync` added
  (`open11s/11s/compat/compat.c:542`). The inner loops of both break unconditionally
  (`open11s/11s/compat/compat.c:503-508`, `open11s/11s/compat/compat.c:559-564`), so only the head of the
  destination is compared. `McUndo.UnsyncUndoes` proves for all lists that unsync undoes a successful sync
  exactly when there was nothing to synchronise, or one address new to the destination and beside it at most
  the address that headed the destination, and that one either comes later or has at least two users.
- A pointer event shorter than eight bytes makes the remaining length wrap around, so a payload pointer that
  passes all checks may denote bytes outside the event; `PointEvents.PointerInside` says exactly when it does
  not, and `PointEvents.PointerOutside` gives such an event.
- The padding of a 64-bit kernel is recognised by the payload's length, so a padded event whose length field
  disagrees with its payload decodes as length 0 (`PointEvents.LayoutsAgree`, `PointEvents.LayoutsDiffer`).
- A number in an interface pattern takes all digits at its place, so a pattern that goes on with a digit
  after its star matches nothing (`IfName.MatchesInstances`).
- A padded key event without a payload sets the data pointer, a packed one does not, so only the packed one makes
  the scan flag the key as absent (`ScanWire.SameCell`).
- The character after a closing quote of a configuration is skipped, whatever it is (`ConfigText.QuoteSkipsNext`).
- Without libm, `iw_freq2float` ignores a negative exponent (`Frequency.DecodersAgree`).

Functions that both an operation and its specification use, such as a comparison, a table or a character class,
have a lemma of their own that says what they are by other means: integer order, literal bytes and texts, or a
second reading of the source (`PmQos.FoldExtreme`, `Scan.ChannelIs`, `WirelessTables.ValueSizes`,
`Text.DigitsAre`, `KeyCodec.StringKey`, `InfoElement.RefusedExactly`, `ConfigText.SettingNamed`).

Every lemma on which Dafny would start an induction of its own is marked `{:induction false}`, so every
proof is the one written down.

## Model

| member | source | states |
|---|---|---|
| Basics.LowFirst | open11s/wireless_tools.29/iwlib.c:2726-2736 | a two-byte field holds its low byte first |
| WirelessTables.ValueSizes | open11s/wireless_tools.29/iwlib.c:2391-2686 | which commands carry values of 16, 8 and 4 bytes, the sizes of their structs |
| WirelessTables.ValueKinds | open11s/wireless_tools.29/iwlib.c:2391-2686 | which commands carry the kinds that share a size with another |
| WirelessTables.PayloadCommands | open11s/wireless_tools.29/iwlib.c:2391-2640 | which commands carry a payload |
| WirelessTables.PayloadLimits | open11s/wireless_tools.29/iwlib.c:2391-2640 | the token size and the bounds of each of them, two without an upper one |
| EventStream.StreamDescr.Init | open11s/wireless_tools.29/iwlib.c:2693-2704 | a new descriptor is at the start of the stream, on no value |
| EventStream.StreamDescr.Extract | open11s/wireless_tools.29/iwlib.c:2711-2907 | one extraction: return code, new cursor, and exactly which parts of the event are written, as the step function of the old cursor |
| EventStream.StreamDescr.FixedPayload | open11s/wireless_tools.29/iwlib.c:2874-2906 | the repaired first offset, the value bytes, and whether the cursor stays in the event or moves on |
| EventStream.StreamDescr.PointPayload | open11s/wireless_tools.29/iwlib.c:2803-2869 | length, flags and payload pointer of a pointer event, with the 4+4 repair and the three discards |
| EventSpec.StepProgress | open11s/wireless_tools.29/iwlib.c:2722-2791 | every positive return keeps the cursor valid, moves it at least four bytes, from at most four bytes before the end |
| EventSpec.StopMoves | open11s/wireless_tools.29/iwlib.c:2721-2791 | returns 0 and -1 leave the cursor alone, with the exact condition of each; -2 skips the event and leaves the value |
| EventSpec.TokenBound | open11s/wireless_tools.29/iwlib.c:2722-2906 | any stream of N bytes, well formed or not, yields at most N div 4 tokens |
| EventSpec.FirstValue | open11s/wireless_tools.29/iwlib.c:2786-2906 | the first extraction of an event of values returns its first value, or stops when the event is cut before it |
| EventSpec.NextValue | open11s/wireless_tools.29/iwlib.c:2776-2906 | from value k the extraction returns value k, or stops with -2 when the stream ends inside it |
| EventSpec.RunRefinesParse | open11s/wireless_tools.29/iwlib.c:2711-2907 | on any bytes and from any event, the whole run of extractions equals the recursive parser that steps by exactly each event's length |
| EventEnd.RunEndRefinesParse | open11s/wireless_tools.29/iwlib.c:2721-2791 | on any bytes the run ends with 0 at the end of the stream, -1 at an event no longer than its header, -2 at the first event the end of the stream cuts |
| EventWire.EventInside | open11s/wireless_tools.29/iwlib.c:2759-2801 | an event inside the stream and long enough is delivered whole with (L-4) div s values, or one for four-byte values with L = 12 |
| EventWire.ValueInside | open11s/wireless_tools.29/iwlib.c:2874-2906 | value k lies inside the event at offset 8 + k*s when (L-4) mod s = 4 or in the 12-byte exception, else at 4 + k*s, and tells whether more follow |
| PointEvents.PointerInside | open11s/wireless_tools.29/iwlib.c:2803-2869 | a payload pointer comes with a length between the descriptor's bounds, and denotes bytes inside its event if and only if the event has at least 8 bytes |
| PointEvents.PointerOutside | open11s/wireless_tools.29/iwlib.c:2826-2863 | a custom event of five bytes whose accepted payload lies past its end |
| PointEvents.ShortAccepted | open11s/wireless_tools.29/iwlib.c:2803-2869 | an event shorter than eight bytes keeps any payload that the descriptor allows, whatever its size |
| PointEvents.LengthFits | open11s/wireless_tools.29/iwlib.c:2826-2863 | in either layout, a length that is that of the payload comes back with its flags, and a payload that is not empty is kept at its place if and only if the length is allowed |
| PointEvents.PaddedMisread | open11s/wireless_tools.29/iwlib.c:2826-2841 | any other length in the padded layout decodes as length and flags 0 |
| PointEvents.PackedMisread | open11s/wireless_tools.29/iwlib.c:2826-2863 | any other length in the packed layout comes back with its flags, unless the payload itself looks like the fields of a padded event |
| PointEvents.LayoutsAgree | open11s/wireless_tools.29/iwlib.c:2826-2863 | for every descriptor, length, flags and payload size: the two layouts decode to the same length and flags if and only if the length is that of the payload or the packed event reads as empty |
| PointEvents.LayoutsDiffer | open11s/wireless_tools.29/iwlib.c:2826-2841 | a custom event with too great a length keeps length and flags packed and loses them padded |
| EventWire.PayloadRoundTrip | open11s/wireless_tools.29/iwlib.c:2826-2863 | a payload event with any length, flags and payload decodes to them if and only if the length is that of the payload and allowed (an empty payload: always packed, and padded when its length denotes no bytes) |
| EventWire.ValuesRoundTrip | open11s/wireless_tools.29/iwlib.c:2877-2892 | an event of values decodes to the values sent if and only if its length tells the layout (all but two packed, or several padded, four-byte values) |
| EventWire.CountEncoded | open11s/wireless_tools.29/iwlib.c:2881-2884 | the length gives number and offset of the values exactly for the recognisable events, and the wrong number for all others |
| EventWire.EventRoundTrip | open11s/wireless_tools.29/iwlib.c:2711-2907 | any encoded event, of values or payload, decodes to what was sent if and only if it is recognisable |
| EventWire.StreamRoundTrip | open11s/wireless_tools.29/iwlib.c:2711-2907 | a whole stream of recognisable encoded events decodes to what was sent, event after event, and the run ends with 0 |
| Scan.ProcessToken | open11s/wireless_tools.29/iwlib.c:2943-3020 | one token makes and links a new cell, or updates the current one, or leaves it alone; without memory nothing changes |
| Scan.ScanHead.Round | open11s/wireless_tools.29/iwlib.c:3142-3158 | one round keeps the null-terminated list equal to the cells so far plus this token |
| Scan.ScanHead.ProcessTokens | open11s/wireless_tools.29/iwlib.c:3134-3166 | the scan consumes the tokens up to the first that makes it give up (and returns -1 only then), and the list holds their cells in order |
| Scan.CellOfSegment | open11s/wireless_tools.29/iwlib.c:2951-2967 | one cell for each access point token, in order, folded from exactly the tokens up to the next access point |
| Scan.GreatestRate | open11s/wireless_tools.29/iwlib.c:3001-3010 | a cell's bit rate is the first greatest of its segment's rates, read as signed numbers with the lowest byte first, and absent exactly when the segment has none |
| Scan.ChannelIs | open11s/wireless_tools.29/iwlib.c:2972-2976 | a channel is the mantissa in four bytes times ten to the exponent in two, and the flags in the last byte |
| Scan.NoKeyIs | open11s/wireless_tools.29/iwlib.c:2990-2998 | a key without data gets the twelfth bit of its flags and keeps the others |
| Scan.LastNetwork | open11s/wireless_tools.29/iwlib.c:2982-2988 | a cell's network name is that of the last name token of its segment |
| Scan.StepShaped | open11s/wireless_tools.29/iwlib.c:2391-2686 | with the library's own tables every token has the payload form its command promises, so the scan reads only what was written |
| ScanWire.ScanTold | open11s/wireless_tools.29/iwlib.c:2711-3020 | for any recognisable events in either layout, the cells of the decoded tokens are those that the sent values and payloads tell of |
| ScanReport.ScanReports | open11s/wireless_tools.29/iwlib.c:3134-3166 | with memory for all of them, scanning the encoded reports of any access points returns 0 and the list of one cell for each, in order |
| ScanReport.SaidBack | open11s/wireless_tools.29/iwlib.c:2951-3010 | the cell of a report holds the reported address, name, mode, frequency, quality and key, and the encoding of the first of the greatest reported rates |
| ScanWire.SameCell | open11s/wireless_tools.29/iwlib.c:2990-2998 | both layouts give the same cell if and only if a key reported without bytes carries the flag of an absent key |
| PrintState.ScanState.PrintToken | open11s/wireless_tools.29/iwlist.c:451-562 | how one token changes the value index and the cell number, and what is printed before a rate |
| PrintState.ScanState.PrintScan | open11s/wireless_tools.29/iwlist.c:850-874 | the printing loop handles exactly the run's tokens, each with the separator its index calls for |
| PrintState.ValueIndex | open11s/wireless_tools.29/iwlist.c:544-562 | on any stream the index of a handled rate is its place among the values of its event, and it is 0 after a token that ends its event |
| PrintState.LinesOfFive | open11s/wireless_tools.29/iwlist.c:544-562 | the title comes before the first rate only, every rate has a lead, and n rates begin (n + 4) div 5 lines |
| PrintState.ParsePlaces | open11s/wireless_tools.29/iwlib.c:2894-2904 | places start at 0, grow by one while values of the same event follow, and restart after its last one |
| PmQos.PmQosObject.UpdateTarget | open11s/11s/compat/compat.c:107-132 | the target becomes the fold of the comparator over default and list, and a change is told once |
| PmQos.PmQosObject.AddRequirement | open11s/11s/compat/compat.c:145-172 | the request is listed first with the default substituted and the target recomputed, or -ENOMEM and no change |
| PmQos.PmQosObject.UpdateRequirement | open11s/11s/compat/compat.c:186-210 | the first request of that name gets the value and the target is recomputed; otherwise no change |
| PmQos.PmQosObject.RemoveRequirement | open11s/11s/compat/compat.c:221-241 | the first request of that name disappears and the target is recomputed; otherwise no change |
| PmQos.FoldExtreme | open11s/11s/compat/compat.c:97-118 | the aggregate is the default or a listed value, and at most (for the greatest, at least) each of them |
| PmQos.ExtremeUnique | open11s/11s/compat/compat.c:97-105 | there is only one such value, so the order of the list does not matter |
| PmQos.HistoryConsistent | open11s/11s/compat/compat.c:107-241 | after any history the target is that extreme, the notifier log has no equal neighbours and its last entry is the target |
| PmQos.AddMovesTarget | open11s/11s/compat/compat.c:148-163 | adding v other than -1 moves the target to the lesser (or greater) of the old target and v |
| PmQos.DefaultAsksNothing | open11s/11s/compat/compat.c:152-155 | adding -1 does not move the target |
| PmQos.UpdateIsRemoveAdd | open11s/11s/compat/compat.c:186-210 | the target after updating a request is that after removing and adding it anew |
| PmQos.AddThenRemove | open11s/11s/compat/compat.c:160-239 | removing what was just added restores list and target, even when the name was in use |
| PmQosThreads.TargetExactOrOwed | open11s/11s/compat/compat.c:107-241 | at every point of every interleaving the target is exact or some thread still owes an update of it |
| PmQosThreads.QuiescentExact | open11s/11s/compat/compat.c:107-241 | when no call is under way the target is the extreme of default and all listed values |
| PmQosThreads.SoloCall | open11s/11s/compat/compat.c:158-163 | a call that nobody interrupts does what the sequential operation does |
| PmQosThreads.EveryChangeReported | open11s/11s/compat/compat.c:107-132 | at every point of every interleaving, the reported values and those about to be reported are, counted with multiplicity, the changes of the target so far |
| PmQosThreads.QuiescentReported | open11s/11s/compat/compat.c:107-132 | so when no call is under way, every change has been reported exactly once, in some order |
| PmQosThreads.ChangesEndAtTarget | open11s/11s/compat/compat.c:119-124 | neighbouring changes differ and the last one is the target |
| PmQosThreads.ToldInOrder | open11s/11s/compat/compat.c:126-131 | in any run: whichever pending report is made next, at any point, the notifiers have been told a prefix of the changes, if and only if no target is changed while a report is still to come |
| PmQosThreads.ToldPromptly | open11s/11s/compat/compat.c:126-131 | the same condition holds if and only if at every point the changes so far were told in order, but for at most the last |
| PmQosThreads.LateNotification | open11s/11s/compat/compat.c:126-131 | a run of two calls in which a change overtakes a report: all is over, the target is 10, and the notifiers were told 20 last |
| PmQosThreads.LuckyNotification | open11s/11s/compat/compat.c:126-131 | a run with the same overtake in which the two changes are told in order, so the condition is about what the scheduler may do next, not about one run's log |
| DevAddr.AddrList.Add | open11s/11s/compat/compat.c:288-318 | result and new list of an add, with keys unique and the count equal to the length |
| DevAddr.AddrList.Delete | open11s/11s/compat/compat.c:260-284 | result and new list of a delete, with keys unique and the count equal to the length |
| DevAddr.AddEffect | open11s/11s/compat/compat.c:288-318 | an add succeeds exactly for a listed address or with memory, changes that address only, and nothing when it fails |
| DevAddr.DeleteEffect | open11s/11s/compat/compat.c:260-284 | a delete succeeds exactly for a listed address (with its global flag, if global), changes that address only, and nothing when it fails |
| DevAddr.OrderKept | open11s/11s/compat/compat.c:260-318 | a new address comes first, and no call changes the order of the addresses that stay |
| DevAddr.CallAgrees | open11s/11s/compat/compat.c:267-318 | one more call keeps list and history in agreement if and only if it is not a non-global delete of an address with only its global user left |
| DevAddr.HistoryAgrees | open11s/11s/compat/compat.c:260-318 | in every balanced history an address is listed exactly when its net count is positive or its global flag set, with users = net count + flag |
| DevAddr.BalancedExactly | open11s/11s/compat/compat.c:260-318 | list and history agree about every address after every prefix of a history if and only if it never deletes non-globally an address with only its global user left |
| DevAddr.GlobalUserDeleted | open11s/11s/compat/compat.c:267-284 | a global add followed by a delete that is not global: the address is gone and its flag still set |
| McSync.Synced | open11s/11s/compat/compat.c:500-508 | the inner loop stops after its first entry, and finds an address synced exactly when it is listed at index 0 of the destination |
| McSync.DevMcSync | open11s/11s/compat/compat.c:491-528 | the loop over the source leaves both lists as the recursive synchronisation does, with its error |
| McSync.DevMcUnsync | open11s/11s/compat/compat.c:546-579 | the same for the loop of dev_mc_unsync |
| McSync.SyncConserves | open11s/11s/compat/compat.c:491-528 | for every address, users in the destination minus users in the source is unchanged by dev_mc_sync, even cut short |
| McSync.UnsyncConserves | open11s/11s/compat/compat.c:546-579 | the same for dev_mc_unsync |
| McSync.TransfersConserve | open11s/11s/compat/compat.c:491-579 | the same for every sequence of both |
| McSync.SyncCovers | open11s/11s/compat/compat.c:509-520 | after a successful dev_mc_sync every address left in the source is in the destination |
| McUndo.EnoughMemory | open11s/11s/compat/compat.c:491-528 | with an allocation for every source entry left, dev_mc_sync succeeds |
| McUndo.SyncFresh | open11s/11s/compat/compat.c:509-520 | addresses new to the destination are put in front of it one by one, and each gains a user in the source |
| McUndo.UnsyncUndoes | open11s/11s/compat/compat.c:491-579 | for any two well-formed lists, dev_mc_unsync undoes a dev_mc_sync that succeeded if and only if the lists were undoable before: no source address, or one new address with at most the destination's head beside it, later or with at least two users |
| McUndo.FreshUndone | open11s/11s/compat/compat.c:546-579 | when all source addresses are new, that is: at most one address |
| McUndo.SecondOnlyReleased | open11s/11s/compat/compat.c:546-579 | two new addresses: dev_mc_unsync releases the second one only, and the first keeps its users in both lists |
| KeyCodec.PrintKey | open11s/wireless_tools.29/iwlib.c:1494-1542 | with room for three bytes a key byte, the buffer holds the text of a present key (of its first byte, for size 0), or the dummy text of an absent one; too small a buffer gets a notice; nothing past buflen changes, but for a key of size 0 |
| KeyCodec.InKey | open11s/wireless_tools.29/iwlib.c:1565-1649 | returns the size and stores the bytes the text denotes, touching nothing else, or returns -1 and leaves the key alone |
| KeyCodec.StringKey | open11s/wireless_tools.29/iwlib.c:1572-1579 | s: and a text denote the codes of its first 64 characters |
| KeyCodec.PassphraseKey | open11s/wireless_tools.29/iwlib.c:1580-1585 | p: and a text denote no key |
| KeyCodec.OtherKey | open11s/wireless_tools.29/iwlib.c:1586-1630 | any other text denotes what the hexadecimal parse gives |
| KeyCodec.SeparatorsAre | open11s/wireless_tools.29/iwlib.c:1608-1609 | the five separators |
| KeyCodec.HexDigits | open11s/wireless_tools.29/iwlib.c:1595-1630 | the hexadecimal loop computes the recursive parse |
| KeyCodec.KeyMeaning | open11s/wireless_tools.29/iwlib.c:1592-1630 | non-empty digit sequences joined by separators denote the concatenation of their left-padded bytes, cut to 64 |
| KeyCodec.KeyTextLength | open11s/wireless_tools.29/iwlib.c:1504-1538 | the printed key has two characters a byte and a dash after every second one |
| KeyCodec.KeyTextSnoc | open11s/wireless_tools.29/iwlib.c:1532-1538 | each further byte prints two digits, after a dash when an even number precede it |
| KeyCodec.HexAccepted | open11s/wireless_tools.29/iwlib.c:1592-1630 | a text that is no string or passphrase is taken for a key if and only if it is empty, or starts with grouped characters (digits and white space, every separator and the end right after a digit) that are all of it or start 64 bytes |
| KeyCodec.DummyMasksKey | open11s/wireless_tools.29/iwlib.c:1512-1538 | the dummy text of an absent key is the text of any key of that size with every digit starred |
| KeyCodec.KeyRoundTrip | open11s/wireless_tools.29/iwlib.c:1494-1649 | for every key of 1 to 64 bytes, parsing the printed key gives it back |
| Text.DigitsAre | open11s/wireless_tools.29/iwlib.c:2055-2059 | the sixteen digits, in both cases, with their values |
| Text.ClassesAre | open11s/wireless_tools.29/iwlib.c:1612-1614 | there are no other digits, and which characters the conversions skip |
| Text.Hex2Is | open11s/wireless_tools.29/iwlib.c:2055-2059 | the first digit of a printed byte counts sixteen |
| MacCodec.MacNtop | open11s/wireless_tools.29/iwlib.c:2042-2061 | succeeds exactly when the text fits, writes it and its NUL, and nothing else; an address of length 0 is printed as its first byte |
| MacCodec.MacAton | open11s/wireless_tools.29/iwlib.c:2110-2166 | result and stored bytes of the parser, never past macmax |
| MacCodec.EtherAton | open11s/wireless_tools.29/iwlib.c:2172-2183 | succeeds exactly for six pairs, with their bytes |
| MacCodec.AtonExact | open11s/wireless_tools.29/iwlib.c:2118-2160 | the parser accepts exactly 1 to macmax hexadecimal pairs joined by single colons, and gives their bytes |
| MacCodec.PrintThenRead | open11s/wireless_tools.29/iwlib.c:2042-2166 | reading a printed address gives the address |
| MacCodec.ReadThenPrint | open11s/wireless_tools.29/iwlib.c:2042-2166 | printing an accepted text gives it in upper case |
| Frequency.IwFreq.FromFloatNoLibm | open11s/wireless_tools.29/iwlib.c:947-955 | the loop divides exactly as often as needed to reach 10^9 or less, and truncates |
| Frequency.IwFreq.FromFloatLibm | open11s/wireless_tools.29/iwlib.c:957-968 | from 10^9 on, nine digits and an error below 10^(E-6); an integer from 1 below 10^9 is kept |
| Frequency.IwFreq.ToFloatNoLibm | open11s/wireless_tools.29/iwlib.c:979-985 | m times ten to the exponent when that is not negative, and m otherwise |
| Frequency.IwFreq.ToFloatLibm | open11s/wireless_tools.29/iwlib.c:987-988 | m times ten to the exponent, which for a negative exponent is what ten to its absolute value scales back to m |
| Frequency.LibmAccuracy | open11s/wireless_tools.29/iwlib.c:957-968 | from 10^9 on: nine digits of mantissa, an error below 10^(E-6), and none if and only if the input is a multiple of 10^(E-6) |
| Frequency.NoLibmAccuracy | open11s/wireless_tools.29/iwlib.c:947-955 | mantissa at most 10^9, the least exponent for that, an error below 10^e, and none if and only if the input is a multiple of 10^e |
| Frequency.SmallInputs | open11s/wireless_tools.29/iwlib.c:943-968 | inputs small enough, also negative ones, lose their fraction and nothing else |
| Frequency.BothExact | open11s/wireless_tools.29/iwlib.c:943-990 | both builds keep multiples of 10^(E-6) and integers from 1 below 10^9 |
| Frequency.DecodersAgree | open11s/wireless_tools.29/iwlib.c:976-990 | the two ways back agree if and only if the exponent is not negative or the mantissa is 0 |
| IfName.IfMatchIfname | open11s/wireless_tools.29/ifrename.c:468-505 | the C loop over digits computes the match result |
| IfName.MatchesInstances | open11s/wireless_tools.29/ifrename.c:475-505 | a value matches a pattern with a star if and only if it is prefix, number, suffix and the suffix does not begin with a digit |
| IfName.DigitAfterStar | open11s/wireless_tools.29/ifrename.c:495-505 | eth10 is an instance of eth*0 and does not match it |
| IfName.MatchesName | open11s/wireless_tools.29/ifrename.c:479-481 | without a star only the same name matches |
| IfName.DigitsAre | open11s/wireless_tools.29/ifrename.c:489-499 | the ten digits |
| ConfigText.SelectorFind | open11s/wireless_tools.29/ifrename.c:1988-2033 | the loop over the selector table computes the search result |
| ConfigText.FindMeaning | open11s/wireless_tools.29/ifrename.c:1988-2033 | a selector is found if and only if the text is a whole name, in any case, or abbreviates only names of one add function, and what is found is such a name |
| ConfigText.NamesAre | open11s/wireless_tools.29/ifrename.c:2001-2006 | a text abbreviates a name if each of its letters is that of the name in either case |
| ConfigText.FullNameFound | open11s/wireless_tools.29/ifrename.c:1998-2006 | each full name finds its own entry |
| ConfigText.SettingNamed | open11s/wireless_tools.29/ifrename.c:388-417 | each entry makes the setting of its name, and its add function is that of the setting's selector |
| ConfigText.ReadSelector | open11s/wireless_tools.29/ifrename.c:2106-2191 | one turn of the selector loop: selector, modifier in braces, quoted or plain value, and where the next selector starts |
| ConfigText.NextAccepted | open11s/wireless_tools.29/ifrename.c:2106-2172 | a selector is read if and only if its name is known, its modifier closed, and a value with its quotes closed follows; otherwise the line is malformed |
| ConfigText.MalformedLast | open11s/wireless_tools.29/ifrename.c:2106-2192 | the settings of a line end with a syntax error, which no add function accepts, if and only if some selector of it is not well formed |
| ConfigText.QuoteSkipsNext | open11s/wireless_tools.29/ifrename.c:2155-2179 | whatever follows a closing quote is skipped with it |
| ConfigText.ConfigReadsBack | open11s/wireless_tools.29/ifrename.c:2068-2192 | a configuration that is written out, with blank lines, indentation, comments, abbreviated selectors, modifiers and values in quotes or not, is read as the settings of the full names |
| IfRename.MacAscii | open11s/wireless_tools.29/ifrename.c:770-775 | the filter text of an address fits its buffer and is the address's text |
| IfRename.ParseMac | open11s/wireless_tools.29/ifrename.c:681-690 | the address read from a selector, with length 0 exactly when it is refused |
| IfRename.IfMapping.GetMac | open11s/wireless_tools.29/ifrename.c:736-787 | type, address of the length that goes with it, and text only when asked for or verbose; MAC and ARP become known |
| IfRename.IfMapping.GetArp | open11s/wireless_tools.29/ifrename.c:842-854 | asks only when the address is not known yet |
| IfRename.IfMapping.GetDriverBusInfo | open11s/wireless_tools.29/ifrename.c:1021-1074 | the three driver selectors become known together, once |
| IfRename.IfMapping.GetBaseAddrIrq | open11s/wireless_tools.29/ifrename.c:1188-1237 | the interrupt becomes known, and the base address when it is at least 0x100 |
| IfRename.IfMapping.GetSysfsValues | open11s/wireless_tools.29/ifrename.c:1692-1849 | every file that can be read gets its value, the others stay unknown |
| IfRename.IfMapping.GetSelector | open11s/wireless_tools.29/ifrename.c:388-417 | which get function serves which selector |
| IfRename.Program.AddMac | open11s/wireless_tools.29/ifrename.c:642-712 | filter or exact address, in the mapping and in the selectors in use, where a filter is never given up |
| IfRename.Program.AddSysfs | open11s/wireless_tools.29/ifrename.c:1487-1549 | the file is found or listed, at most eight of them, and gets its value |
| IfRename.Program.AddSetting | open11s/wireless_tools.29/ifrename.c:388-417 | which add function serves which selector: an acceptable value is stored, at the width of its field, and its selector is on; anything else is refused and changes nothing |
| IfRename.Program.ReadSelectors | open11s/wireless_tools.29/ifrename.c:2106-2192 | the settings of a line are added one by one up to the first that is malformed or refused, with the result that the line ends with |
| IfRename.Program.ReadLine | open11s/wireless_tools.29/ifrename.c:2073-2213 | a line of text that is not blank adds a mapping in front only if it has selectors and all are well formed and accepted; good selectors of a refused line stay in use |
| IfRename.Program.ReadFile | open11s/wireless_tools.29/ifrename.c:2040-2223 | the text of a whole configuration, line after line |
| IfRename.Program.ExtractTarget | open11s/wireless_tools.29/ifrename.c:2229-2261 | asks about exactly the selectors in use, in order |
| IfRename.Program.Find | open11s/wireless_tools.29/ifrename.c:2267-2301 | the first mapping of the list all of whose selectors are known and match, or null |
| IfRename.Program.Lookup | open11s/wireless_tools.29/ifrename.c:2480-2508 | extraction and search return the object of the last accepted line that holds of the interface, with that line's name, and null exactly when no line holds |
| IfRename.Program.ProcessIfname | open11s/wireless_tools.29/ifrename.c:2468-2512 | the same, and null also when a new name was asked for that the line's name does not match |
| IfRename.GivesExactly | open11s/wireless_tools.29/ifrename.c:2509-2512 | a line's name gives the new name asked for if and only if it is that name, or becomes it with a number for its star and no digit after that |
| IfRename.Resolve | open11s/wireless_tools.29/ifrename.c:2040-2512 | for the text of any configuration and any interface, reading the one and asking about the other ends in the mapping of the last accepted line that holds, or in none because no line holds or the new name asked for is not the line's |
| IfRename.Program.AllMatch | open11s/wireless_tools.29/ifrename.c:2281-2293 | a mapping matches exactly when every selector it uses is known of the target and matches |
| IfRename.Program.CompareSysfs | open11s/wireless_tools.29/ifrename.c:1555-1576 | matches exactly when every value the mapping has is known and matches |
| Mapping.AddressLength | open11s/wireless_tools.29/ifrename.c:128-134 | an address is the first eight bytes for FireWire, four for IrDA, and six for anything else |
| Mapping.AddKeeps | open11s/wireless_tools.29/ifrename.c:672-703 | an add function never unselects, never downgrades the filter, never renumbers files, and keeps the mapping within what is selected |
| Mapping.LineKeeps | open11s/wireless_tools.29/ifrename.c:2194-2213 | every line, accepted or refused, keeps every listed mapping's selectors within the selectors in use |
| Mapping.LinesKeep | open11s/wireless_tools.29/ifrename.c:2068-2213 | so does every configuration |
| Mapping.ExtractLearns | open11s/wireless_tools.29/ifrename.c:2246-2258 | after extraction every known value is the system's answer, and every selector asked for is known if the system has an answer |
| Mapping.ComparesMeets | open11s/wireless_tools.29/ifrename.c:2274-2297 | comparing a selector with what was learned is asking the system about it directly |
| MappingFind.FindsFirstMeeting | open11s/wireless_tools.29/ifrename.c:2246-2297 | asking about any selectors that include those in use finds the first mapping that the interface meets |
| MappingFind.LazyIsFull | open11s/wireless_tools.29/ifrename.c:2246-2297 | for every configuration and interface, asking only about the selectors in use finds the mapping that asking everything finds |
| MappingFind.SettingsSay | open11s/wireless_tools.29/ifrename.c:2085-2192 | an accepted mapping says, for each selector and each sysfs file, what the last setting about it says, and nothing else |
| MappingFind.LineAccepted | open11s/wireless_tools.29/ifrename.c:2068-2213 | a line adds a mapping if and only if its name has at most 16 characters (15 with a star), it has settings, every value is acceptable and the sysfs files in use stay at most eight |
| MappingFind.SelectedExactly | open11s/wireless_tools.29/ifrename.c:2050-2213 | a selector is in use if and only if some line, accepted or not, has a good setting of it before any bad one, so nothing else is asked about an interface |
| MappingFind.MeetsLine | open11s/wireless_tools.29/ifrename.c:2085-2213 | the interface meets an accepted mapping if and only if every setting its line still makes holds |
| MappingFind.FoundIsLastHolding | open11s/wireless_tools.29/ifrename.c:2040-2301 | the mapping found is that of the last accepted line that holds of the interface, and none is found exactly when none holds |
| InfoElement.PrintUnknown | open11s/wireless_tools.29/iwlist.c:218-232 | prints the bytes of the element's extent |
| InfoElement.PrintSuites | open11s/wireless_tools.29/iwlist.c:348-360 | prints a list of suites and moves past it |
| InfoElement.PrintWpa | open11s/wireless_tools.29/iwlist.c:239-401 | prints version, suites, counts and defaults, stopping where the extent ends |
| InfoElement.PrintPairwise | open11s/wireless_tools.29/iwlist.c:330-360 | the counted pairwise list and what follows, the default when there is no count, the count alone when the list is cut |
| InfoElement.PrintAuthentication | open11s/wireless_tools.29/iwlist.c:362-401 | the counted authentication list and the preauthentication bit, or nothing, or the count alone when the list is cut |
| InfoElement.PrintGenIe | open11s/wireless_tools.29/iwlist.c:409-433 | prints the elements of a buffer one after the other |
| InfoElement.ReadsExtent | open11s/wireless_tools.29/iwlist.c:239-401 | what is printed depends on the two header bytes and the bytes of the extent only |
| InfoElement.RefusedExactly | open11s/wireless_tools.29/iwlist.c:264-298 | an element is printed as its bytes if and only if it is neither 30 with four bytes nor DD with eight that go on 00-50-F2-01 |
| InfoElement.VersionAndGroup | open11s/wireless_tools.29/iwlist.c:264-328 | the version of the others, lowest byte first, and their group cipher, known by its number under 00-0F-AC or 00-50-F2 only |
| InfoElement.DecodeEncoded | open11s/wireless_tools.29/iwlist.c:239-401 | for any version, group, pairwise and authentication suites and capabilities that fit, with or without more after the capabilities, decoding gives them back, foreign suites as proprietary, whatever follows in memory |
| InfoElement.CutElement | open11s/wireless_tools.29/iwlist.c:300-401 | a complete element of which only the first n bytes are there: defaults, counts without lists, whole lists and the preauthentication bit, as n allows |
| InfoElement.ElementsVisited | open11s/wireless_tools.29/iwlist.c:409-433 | elements that tile the buffer are each visited once, in order, and decoded on their own |
| InfoElement.InsideExactly | open11s/wireless_tools.29/iwlist.c:409-433 | every extent handed to the decoder lies inside the buffer if and only if the walk ends inside it, or its first element is as long as the buffer or longer |
| InfoElement.OverreadPrinted | open11s/wireless_tools.29/iwlist.c:409-433 | a buffer of four bytes whose second element reaches past it: the bytes behind the buffer are printed |
| InfoElement.InsideReadsBuffer | open11s/wireless_tools.29/iwlist.c:409-433 | when all extents lie inside, what is printed does not depend on anything after the buffer |

## Left out

- Streams of `we_version` 18 and below, whose pointer events carry a pointer in the stream.
- The -2 return keeps `value` while moving `current`, as in the source; what a caller that goes on after it would see is not part of any property, since all callers stop there.
- Reads past the stream buffer: re-aligning a cut event reads up to four bytes past the end, which are part of the modelled memory; payloads that a pointer denotes past the memory are cut at its end.
- Parts of `struct iw_event` that an extraction does not write keep their old bytes in the source; the model only says that they are not written. Byte order is little-endian.
- Scan.ScanHead.ProcessTokens: requires that the first token is not one that updates a cell, because the source would follow a null pointer there; `free` and `errno` are not modelled.
- Sockets, `ioctl`, `/proc` and sysfs reads, signals and printing formats; what the system answers is a parameter.
- PM-QoS: one class object at a time, of any class, with the CPU latency class as the one instance written out; lists as sequences and entries as values; each critical section and each notifier call is one atomic step; the misc device is left out.
- Address lists: nodes are values in a sequence, so freeing and aliasing are not modelled; address and length are one byte sequence; locks and `__dev_set_rx_mode` are left out.
- Allocation is a parameter: whether it succeeds, or how many allocations do. In `ifrename` it always succeeds.
- KeyCodec.PrintKey: the source writes three characters for a key of size 0 whatever buflen is, and so does the model; the buffer has room for them.
- KeyCodec.InKey: passphrases return -1 without a message.
- Strings are 8-bit characters before the terminating NUL, in the C locale.
- Frequency: exact reals instead of doubles, and no truncation of mantissa and exponent to their integer widths; `floor(log10(x))` is a parameter with its defining property.
- IfRename.Program.ReadLine: mappings are objects, but the list is a sequence of them, so `mapping_list` links are not modelled; a line is a string, and the NULs written into it are the ends of its pieces.
- IfRename.Program.ReadFile: takes the text of the file, without NUL characters; opening it, or standard input, is left out.
- IfRename.Program.ProcessIfname: stops before the renaming; the dry run and the device path that udev passes are left out.
- Mapping: `fnmatch` is any relation, and the numbers that `sscanf` reads are any function of the text.
- Renaming, takeover and module probing in `ifrename`, and `mapping_getpcmciaslot`'s file format, are left out.
- InfoElement: the buffer is followed by 255 bytes of memory, because an element whose length byte runs past the end is still handed on with the whole buffer length; names of suites are their numbers.
- `iw_dbm2mwatt` and its inverse, the ioctl wrappers, `libnl`, the `iw` tool and the web pages would add only plumbing or floating-point constants.
