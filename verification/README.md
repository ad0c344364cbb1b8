# Abstract account: a verified model

A model in Dafny 4.11 of the `abstractaccount` chain module and of its two account contracts that
keep state, with proofs about whole inputs and whole runs. `dafny verify dfyconfig.toml` checks it.

## What is modelled

**The wire codec** of `Params`, `GenesisState` and `MsgRegisterAccount`. Each message has a plain
description (`ParamsCodec`, `GenesisCodec`, `RegisterCodec`: its fields concatenated forwards, and a
reader that turns one field at a cursor into an operation on the message) and a class with the
generated methods (`ParamsMessage`, `GenesisMessage`, `RegisterMessage`), which fill an array from the
back and decode into their own fields. Every method is proved to do exactly what the description says,
for every input, including the bytes that do not decode and what they leave in the message; the
properties are then proved of the description. `ParamsFields`, `GenesisFields` and `RegisterFields` say of
every input that is a single field what it does to the message, of every input whose first field is faulty
what is left and which error comes back, and which bytes each field is written as. The three generated files repeat the same varint,
length and skip code; it is modelled once, in `Varint`, `Skip` and `Framing`. `Messages` proves what
holds of any message whose fields are decoded in order.

Words are 64 bits and Go's `int` is a 64-bit signed integer whose sums wrap around (`Machine.WrapInt`),
so the tests for negative indices are modelled as they are. The varint loop ors shifted septets into a word
(`Machine.OrShifted`), and `Machine.OrIsPlus` shows why that adds them.

**The state machine**: the module's store with its three keys, the message handlers, the ante and post
decorators, the gas-limited contract call, genesis, and runs of many txs and governance proposals. What
a contract does is a `Chain.Script`: any finite tree of gas spent, writes outside the module's store and
messages submitted back to the router, including further registrations, with their errors caught or not.
`Chain` and `Hooks` say what each operation computes, `App.Keeper` updates the state in place with
branches that are thrown away, and is proved equal to them; `Histories`, `Effects`, `Theorems`, `Gas`,
`Commit` and `Runs` hold the results about executions, accounts and contract writes, hooks, gas meters, the
commit rule and runs. One gas meter runs through the ante handler, the
messages and the post handler of a tx; a hook's contract runs on a meter of its own.

The commit rule is an assumption, taken from the repository's README (lines 96 to 139): what the ante
handler writes stays when it succeeds; what the messages and the post handler write stays when all of
them succeed; everything else is discarded. It is written out in `Hooks.DeliverTx`.

**The contracts**: the grant table with its queries (`Granter`, `GrantQuery`) and the one-time-password
counter (`Totp`). Signature checks are parameters.

## Where the code differs from what is said of it

- The loop over a packed list is bounded by the end of the input, not of the payload. A payload that
  stops in the middle of a varint borrows the bytes after it, where the section "Packed Repeated Fields"
  of the Protocol Buffers Encoding specification knows only whole varints. The code is kept;
  `ParamsCodec.FieldIsRecord` says exactly when a field consumes more than its own record,
  `ParamsCodec.BorrowsNextByte` gives four bytes that do, and `PackedList.PackedCount` says when the
  pre-count is one short.
- A field number is a 32-bit conversion of the tag's upper bits, so a tag of more than 35 bits can alias
  a small field number: `Framing.TagSurvives` says exactly which tags keep theirs, and `Framing.TagAliases`
  gives one that is taken for field 1.
- An empty but non-nil `Msg` or `Salt` comes back as nil: `RegisterCodec.RoundTrip` has the exact condition.
- The README says that `after_tx` is called only when `before_tx` and all messages succeeded, and the post
  handler's comment that a missing marker means a tx without account abstraction. The marker is written in
  the ante handler and is not cleared when a tx fails later, so a following tx that has nothing to do with
  account abstraction calls the earlier account's `after_tx`: `Runs.StrayHook` says exactly when,
  `Runs.StrayHookExample` gives two such txs, and `Runs.HooksPaired` the proviso under which hooks are paired.
- The first ID is the one in genesis, whatever it is, and not necessarily 1. Labels are unique only up to
  2^64 registrations (`Runs.LabelsDistinct`).
- The password contract cannot be initialized with a window of zero seconds or in the very first window:
  the division or the checked subtraction panics (`cosmwasm/Cargo.toml`, line 36, turns overflow checks on).
- Grants are paged in the order of the raw storage keys: by the length of the type URL first.

## Model

| member | source | states |
|---|---|---|
| `Machine.OrIsPlus` | x/abstractaccount/types/params.pb.go:256 | or-ing a shifted value into an accumulator that has no bit that high adds it |
| `Machine.OrShiftedAdds` | x/abstractaccount/types/params.pb.go:256 | on 64-bit words, where the shift drops bits, the loop's or is the sum modulo 2^64 |
| `Varint.SovIsLength` | x/abstractaccount/types/params.pb.go:235-237 | the size formula with `Len64` is the number of bytes the varint writer fills |
| `Varint.SovIsLeast` | x/abstractaccount/types/params.pb.go:235-237 | the size is the least k of at least 1 with v < 2^(7k) |
| `Varint.EncodeWordLength` | x/abstractaccount/types/params.pb.go:169-179 | a word takes one to ten bytes, so ten bytes of scratch per element suffice |
| `Varint.EncodeValue` | x/abstractaccount/types/params.pb.go:199-209 | every byte but the last carries the continuation bit and the septets spell the value |
| `Varint.PutVarint` | x/abstractaccount/types/params.pb.go:199-209 | steps back by the size formula, fills exactly the bytes up to the given offset with the encoding and touches nothing else |
| `Varint.DecodeVarint` | x/abstractaccount/types/params.pb.go:247-260 | the loop stops at the first byte without continuation bit with the base 128 value modulo 2^64, or fails at the tenth septet or at the end of the input |
| `Varint.ReadVarintLocal` | x/abstractaccount/types/params.pb.go:247-260 | bytes after a complete varint never change how it is read |
| `Varint.ReadEncoded` | x/abstractaccount/types/params.pb.go:247-260 | decoding started on the encoding of any word returns the word and stops where the encoding stops, whatever follows |
| `Skip.SkipRecord` | x/abstractaccount/types/params.pb.go:425-502 | the loop with the group-depth counter, with every wrap-around and error, as a recursive scan; it terminates |
| `Skip.SkipPayload` | x/abstractaccount/types/params.pb.go:447-492 | the cases of the skip loop that leave the depth alone: where the payload ends, as a wrapped index, or the error |
| `Skip.ScanCloses` | x/abstractaccount/types/tx.pb.go:1166-1243 | with d groups open, the counter reaches zero exactly where a recursive descent has closed d groups, if it stays in the input |
| `Skip.ScanIsRecord` | x/abstractaccount/types/params.pb.go:425-502 | a skip within the input consumed exactly the first balanced record read by recursive descent, and there is such a skip whenever there is such a record |
| `Skip.RecordLocal` | x/abstractaccount/types/params.pb.go:425-502 | bytes after the record never change what is consumed |
| `Framing.DecodeTag` | x/abstractaccount/types/params.pb.go:246-268 | field number as a 32-bit conversion, wire type, and the tag errors in their order |
| `Framing.TagAccepted` | x/abstractaccount/types/params.pb.go:261-268 | a tag is accepted exactly when it is a complete varint, not an end-group tag, and its upper bits modulo 2^32 lie strictly between 0 and 2^31 |
| `Framing.TagSurvives` | x/abstractaccount/types/params.pb.go:261-268 | an accepted tag keeps its field number exactly when it is below 2^34, and otherwise passes for the number modulo 2^32 |
| `Framing.TagAliases` | x/abstractaccount/types/params.pb.go:261-268 | a six-byte tag for field 2^32 + 1 that is taken for that of field 1 |
| `Framing.DecodeExtent` | x/abstractaccount/types/genesis.pb.go:207-231 | a length prefix is accepted only if its end, as a wrapped sum, lies in the input |
| `Framing.ExtentAccepted` | x/abstractaccount/types/genesis.pb.go:207-231 | a length is accepted exactly when as many bytes follow it, whatever the index wraps to |
| `Framing.SkipField` | x/abstractaccount/types/params.pb.go:404-417 | the default case rewinds to the tag and moves past the skipped record or fails |
| `Framing.SkipIsRecord` | x/abstractaccount/types/params.pb.go:404-417 | a field of unknown number decodes exactly when it is one complete record, and then consumes that record |
| `Framing.ParseFront` | x/abstractaccount/types/params.pb.go:244-419 | inside a first part that decodes, what follows is not looked at |
| `Framing.ParseBack` | x/abstractaccount/types/params.pb.go:244-419 | where fields stand in the input makes no difference to whether and as what they decode |
| `Messages.DecodeConcat` | x/abstractaccount/types/params.pb.go:244-424 | for any message: after a part that decodes, the rest decodes into its result, with the same value and verdict |
| `Messages.UnknownIgnored` | x/abstractaccount/types/params.pb.go:404-417 | for any message: a field that keeps it, inserted at a field boundary, changes nothing |
| `Fields.BlockIsRecord` | x/abstractaccount/types/genesis.pb.go:203-238 | a length-delimited field is one wire record |
| `Writers.PutWordField` | x/abstractaccount/types/params.pb.go:158-167 | puts a varint field in front of what is already written, nothing for zero, and touches nothing else |
| `Writers.PutBoolField` | x/abstractaccount/types/params.pb.go:186-195 | the same for a flag |
| `Writers.PutBlockHeader` | x/abstractaccount/types/genesis.pb.go:125-137 | turns a payload standing in the buffer into a length-delimited field in place |
| `Writers.PutBytes` | x/abstractaccount/types/tx.pb.go:509-515 | copies a payload to just before an offset and touches nothing else |
| `PackedList.SumSovIsLength` | x/abstractaccount/types/params.pb.go:219-225 | the sum of the sizes over the list is the length of the packed scratch content, within ten bytes per element |
| `PackedList.PackedReads` | x/abstractaccount/types/params.pb.go:345-362 | the packed loop returns the list that was packed and stops at its end, whatever follows |
| `PackedList.PackedCount` | x/abstractaccount/types/params.pb.go:334-362 | the pre-count equals the number of appended varints when the payload's last byte has its high bit clear, and is one short exactly otherwise |
| `ParamsCodec.RoundTrip` | x/abstractaccount/types/params.pb.go:138-424 | decoding the encoding of any `Params` into a zero value returns it |
| `ParamsCodec.MergeEncoded` | x/abstractaccount/types/params.pb.go:241-424 | decoded on top of another value: flag kept, lists joined, last non-zero limit wins |
| `ParamsCodec.EncodingInjective` | x/abstractaccount/types/params.pb.go:138-197 | distinct values have distinct encodings |
| `ParamsCodec.ParamsConcat` | x/abstractaccount/types/params.pb.go:241-424 | if a decodes, a followed by b decodes exactly when b decodes into the result, with equal values |
| `ParamsCodec.UnknownFieldIgnored` | x/abstractaccount/types/params.pb.go:404-417 | a complete record of an unknown field number at a field boundary changes nothing |
| `ParamsCodec.AppendsAtMostOnePerByte` | x/abstractaccount/types/params.pb.go:241-424 | on arbitrary bytes the list grows by at most one element per byte, also when decoding fails |
| `ParamsCodec.FieldIsRecord` | x/abstractaccount/types/params.pb.go:308-362 | each turn of the loop consumes at least its wire record, and exactly that unless a packed payload stops in the middle of a varint |
| `ParamsCodec.BorrowsNextByte` | x/abstractaccount/types/params.pb.go:345-362 | four bytes of which the packed field takes all although its record is three bytes long |
| `ParamsFields.NumberDecodes` | x/abstractaccount/types/params.pb.go:270-307 | any input that is one number field: the flag becomes whether it is zero, a limit becomes it, zero included, and the list gets it as one more element |
| `ParamsFields.UnpackedDecodes` | x/abstractaccount/types/params.pb.go:291-307 | an element that is not packed is appended |
| `ParamsFields.FlagDecodes` | x/abstractaccount/types/params.pb.go:270-289 | the flag is set by any number but zero, and cleared by zero |
| `ParamsFields.LimitsDecode` | x/abstractaccount/types/params.pb.go:366-403 | each limit is replaced, by an explicit zero as well |
| `ParamsFields.PackedDecodesTo` | x/abstractaccount/types/params.pb.go:308-362 | any input that is one packed field appends what the packed loop reads |
| `ParamsFields.ListDecodes` | x/abstractaccount/types/params.pb.go:290-365 | a list written element by element, packed, in several runs or mixed arrives whole and in order |
| `ParamsFields.FaultyFieldRejected` | x/abstractaccount/types/params.pb.go:246-417 | when the first field is faulty, exactly this error, and exactly this is left of the message |
| `ParamsFields.FaultyListRejected` | x/abstractaccount/types/params.pb.go:308-362 | the same for a packed list that breaks off, the elements before the fault staying |
| `ParamsFields.FieldsAscend` | x/abstractaccount/types/params.pb.go:153-197 | the encoding byte by byte: fields in ascending order, zero ones left out |
| `ParamsMessage.SumOfSov` | x/abstractaccount/types/params.pb.go:219-223 | the size loop over the list computes the sum |
| `ParamsMessage.PackVarints` | x/abstractaccount/types/params.pb.go:169-179 | the scratch loop fills the scratch buffer with the concatenated varints, in bounds |
| `ParamsMessage.AppendVarint` | x/abstractaccount/types/params.pb.go:172-178 | the inner loop appends one varint behind what is already in the scratch buffer |
| `ParamsMessage.PutPackedField` | x/abstractaccount/types/params.pb.go:168-185 | puts the packed field in front of what is written and touches nothing else |
| `ParamsMessage.CountElements` | x/abstractaccount/types/params.pb.go:334-341 | counts the bytes without continuation bit |
| `ParamsMessage.ParamsMessage.Size` | x/abstractaccount/types/params.pb.go:210-233 | the length of the encoding |
| `ParamsMessage.ParamsMessage.MarshalToSizedBuffer` | x/abstractaccount/types/params.pb.go:153-197 | in any buffer that is long enough: exactly the last bytes become the forward concatenation of the fields, the prefix is unchanged, the length is returned |
| `ParamsMessage.ParamsMessage.MarshalTo` | x/abstractaccount/types/params.pb.go:148-151 | the encoding at the start of the buffer, the rest unchanged |
| `ParamsMessage.ParamsMessage.Marshal` | x/abstractaccount/types/params.pb.go:138-146 | a fresh buffer that holds exactly the encoding |
| `ParamsMessage.ParamsMessage.Unmarshal` | x/abstractaccount/types/params.pb.go:241-424 | on arbitrary bytes: terminates, never leaves the input, and leaves the message and error that decoding field by field prescribes |
| `ParamsMessage.ParamsMessage.DecodeField` | x/abstractaccount/types/params.pb.go:245-418 | one turn of the loop, every branch, with what it has done to the message when it fails |
| `ParamsMessage.ParamsMessage.DecodePacked` | x/abstractaccount/types/params.pb.go:327-362 | appends the packed varints; the pre-count is the number appended when the payload ends a varint |
| `ParamsMessage.ParamsMessage.AppendPacked` | x/abstractaccount/types/params.pb.go:345-362 | the packed loop, bounded by the input, as a recursive reading |
| `GenesisCodec.RoundTrip` | x/abstractaccount/types/genesis.pb.go:101-278 | every genesis state survives the wire, with or without params |
| `GenesisCodec.MergeEncoded` | x/abstractaccount/types/genesis.pb.go:203-238 | a nested message merges into the one present or into a zero one |
| `GenesisCodec.AbsentIsNotZero` | x/abstractaccount/types/genesis.pb.go:126-137 | absent params and present all-zero params have different encodings |
| `GenesisCodec.GenesisConcat` | x/abstractaccount/types/genesis.pb.go:174-278 | decoding respects concatenation, nested params merging |
| `GenesisCodec.UnknownFieldIgnored` | x/abstractaccount/types/genesis.pb.go:258-271 | an unknown record at a field boundary changes nothing |
| `GenesisCodec.FieldIsRecord` | x/abstractaccount/types/genesis.pb.go:174-278 | each turn consumes exactly one wire record |
| `GenesisFields.NestedFieldDecodes` | x/abstractaccount/types/genesis.pb.go:203-238 | whatever the nested payload: it is decoded into the params present or into zero ones, and its error is the whole's |
| `GenesisFields.NextIDFieldDecodes` | x/abstractaccount/types/genesis.pb.go:239-257 | the next ID is replaced, by an explicit zero as well |
| `GenesisFields.FaultyFieldRejected` | x/abstractaccount/types/genesis.pb.go:178-271 | when the first field is faulty, exactly this error, and exactly this is left of the message |
| `GenesisFields.FieldsAscend` | x/abstractaccount/types/genesis.pb.go:116-139 | the encoding byte by byte |
| `GenesisMessage.GenesisMessage.Size` | x/abstractaccount/types/genesis.pb.go:152-166 | the length of the encoding |
| `GenesisMessage.GenesisMessage.MarshalToSizedBuffer` | x/abstractaccount/types/genesis.pb.go:116-139 | with params encoded in place into the free prefix: exactly the last bytes are the encoding, the rest is unchanged |
| `GenesisMessage.GenesisMessage.PutParams` | x/abstractaccount/types/genesis.pb.go:126-137 | the nested message written into the free prefix, its length and key in front of it, nothing else touched |
| `GenesisMessage.GenesisMessage.Marshal` | x/abstractaccount/types/genesis.pb.go:101-109 | a fresh buffer that holds exactly the encoding |
| `GenesisMessage.GenesisMessage.Unmarshal` | x/abstractaccount/types/genesis.pb.go:174-278 | message and error on arbitrary bytes, merging into the nested object or a new one |
| `GenesisMessage.GenesisMessage.DecodeField` | x/abstractaccount/types/genesis.pb.go:176-272 | one turn of the loop, every branch |
| `RegisterCodec.RoundTrip` | x/abstractaccount/types/tx.pb.go:489-550 | over any lawful coin codec a message survives the wire exactly when neither byte field is an empty non-nil buffer; contents always survive |
| `RegisterCodec.FundsDecode` | x/abstractaccount/types/tx.pb.go:961-994 | the coins come back in the order they were in |
| `RegisterCodec.DecodeEncoded` | x/abstractaccount/types/tx.pb.go:847-1049 | decoding an encoding gives the message with empty buffers turned into nil |
| `RegisterCodec.RegisterConcat` | x/abstractaccount/types/tx.pb.go:847-1049 | decoding respects concatenation |
| `RegisterCodec.UnknownFieldIgnored` | x/abstractaccount/types/tx.pb.go:1029-1042 | an unknown record at a field boundary changes nothing |
| `RegisterCodec.FieldIsRecord` | x/abstractaccount/types/tx.pb.go:847-1049 | each turn consumes exactly one wire record |
| `RegisterFields.PayloadFieldDecodes` | x/abstractaccount/types/tx.pb.go:876-1028 | whatever the payload of a length-delimited field: sender, message and salt are replaced, by an empty buffer too, and a coin is appended |
| `RegisterFields.CoinFieldDecodes` | x/abstractaccount/types/tx.pb.go:990-994 | a coin's own error fails the message, and the coin stays in it |
| `RegisterFields.CodeIDFieldDecodes` | x/abstractaccount/types/tx.pb.go:908-926 | the code ID is replaced, by an explicit zero as well |
| `RegisterFields.FaultyFieldRejected` | x/abstractaccount/types/tx.pb.go:852-1042 | when the first field is faulty, exactly this error, and exactly this is left of the message |
| `RegisterFields.FieldsAscend` | x/abstractaccount/types/tx.pb.go:504-550 | the encoding byte by byte, but for the coins |
| `RegisterFields.CoinsAscend` | x/abstractaccount/types/tx.pb.go:516-529 | each coin is one more field behind those before it |
| `RegisterMessage.PutBytesField` | x/abstractaccount/types/tx.pb.go:530-536 | puts a byte field in front of what is written, nothing when empty |
| `RegisterMessage.RegisterMessage.Size` | x/abstractaccount/types/tx.pb.go:626-654 | the length of the encoding |
| `RegisterMessage.RegisterMessage.SizeOfFunds` | x/abstractaccount/types/tx.pb.go:643-648 | the loop over the coins computes the length of their fields |
| `RegisterMessage.RegisterMessage.MarshalToSizedBuffer` | x/abstractaccount/types/tx.pb.go:504-550 | exactly the last bytes are the encoding, the rest is unchanged |
| `RegisterMessage.RegisterMessage.PutFunds` | x/abstractaccount/types/tx.pb.go:516-529 | the reverse loop leaves the coins in forward order |
| `RegisterMessage.RegisterMessage.Marshal` | x/abstractaccount/types/tx.pb.go:489-497 | a fresh buffer that holds exactly the encoding |
| `RegisterMessage.RegisterMessage.Unmarshal` | x/abstractaccount/types/tx.pb.go:847-1049 | message and error on arbitrary bytes, an appended coin staying when its decoding fails |
| `RegisterMessage.RegisterMessage.DecodeField` | x/abstractaccount/types/tx.pb.go:850-1043 | one turn of the loop, every branch |
| `ParamsRules.Validate` | x/abstractaccount/types/params.go:22-47 | the first broken rule: positive limits, an empty list when all is allowed, a strictly ascending list without zero |
| `ParamsRules.IsAllowed` | x/abstractaccount/types/params.go:51-63 | true exactly when all is allowed or the ID is in the list |
| `ParamsRules.AscendingUnique` | x/abstractaccount/types/params.go:36-44 | a list that passes is determined by its elements |
| `ParamsRules.Canonical` | x/abstractaccount/types/params.go:22-63 | valid params with the same limits that allow the same code IDs are equal, and so are their encodings |
| `Store.BigEndianRoundTrip` | x/abstractaccount/keeper/keeper.go:99-108 | eight big-endian bytes give the ID back |
| `Store.ParamsWritten` | x/abstractaccount/keeper/keeper.go:51-87 | stored params are read back, the other two entries unchanged |
| `Store.NextIDWritten` | x/abstractaccount/keeper/keeper.go:99-108 | the stored next ID is read back, the other two entries unchanged |
| `Store.SignerWritten` | x/abstractaccount/keeper/keeper.go:112-126 | the marker is read back or gone, the other two entries unchanged |
| `Histories.ScriptSound` | x/abstractaccount/keeper/msg_server.go:57-75 | any contract execution, with nested registrations and caught errors: IDs advance without gap or repetition, valid params stay valid, the marker stays, and gas stays within the limit unless it runs out |
| `Histories.MsgSound` | x/abstractaccount/keeper/msg_server.go:24-106 | the same for every message |
| `Histories.RegisterExact` | x/abstractaccount/keeper/msg_server.go:40-106 | reading aid, no more than the handler unfolded: the guards in one condition, the account left, and the ID recorded |
| `Histories.UpdateParamsExact` | x/abstractaccount/keeper/msg_server.go:24-36 | params change exactly when the authority sends valid ones, and otherwise nothing changes |
| `Effects.RegisterFrame` | x/abstractaccount/keeper/msg_server.go:76-88 | a registration puts one account in place, at the new address, and leaves all else as the contract's execution left it |
| `Effects.ScriptAccounts` | x/abstractaccount/keeper/msg_server.go:57-88 | after any completed execution the accounts are the earlier ones overlaid with the surviving registrations in order, nested ones included |
| `Effects.MsgAccounts` | x/abstractaccount/keeper/msg_server.go:40-88 | the same for every message |
| `Effects.RegisteredStand` | x/abstractaccount/keeper/msg_server.go:81-88 | every address that a surviving registration took holds an abstract account, that of the latest one there, and every other address holds what it held |
| `Effects.ScriptWrites` | x/abstractaccount/keeper/msg_server.go:57-75 | contract entries that no script writes stay as they were |
| `Effects.WriteLands` | x/abstractaccount/keeper/msg_server.go:57-75 | a write that nothing overwrites is there after a completed execution |
| `Effects.CaughtOnlySpends` | cosmwasm/packages/absacc/src/proto.rs:23-30 | a submitted message that fails and is caught has only spent its gas |
| `Effects.UncaughtEnds` | cosmwasm/packages/absacc/src/proto.rs:23-30 | an error that is not caught, and running out of gas in any case, ends the execution |
| `Effects.MsgsConcat` | README.md:96-139 | messages run one after the other, and the first failure is the tx's |
| `Theorems.SudoAllOrNothing` | x/abstractaccount/ante.go:259-278 | the gas-limited call applies exactly the contract's writes or nothing, goes over its allowance exactly when it runs out, and leaves the caller's meter as it was |
| `Theorems.AnteExact` | x/abstractaccount/ante.go:54-135 | reading aid, no more than the decorator unfolded: whose contract is called before a tx, and which txs pass |
| `Theorems.AnteAllOrNothing` | x/abstractaccount/ante.go:76-134 | when the ante hook fails, its signer's marker is all that has changed, and only for an abstract account; when it passes, the state is what the contract made of the marked one; the allowance is the one stored when it ran, and the tx's meter pays for the later handlers alone |
| `Theorems.PostAllOrNothing` | x/abstractaccount/ante.go:147-180 | the post hook calls the marked contract or none; when it fails only the marker is gone; when it passes, the state is what the contract made of the cleared one, or the state as it was without a marker, plus what later handlers wrote; it passes exactly when the contract and the later handlers do; allowance and meter as for the ante hook |
| `Theorems.AnteMarks` | x/abstractaccount/ante.go:72-76 | a passed ante handler leaves the called account's marker, or the marker it found |
| `Theorems.PostClears` | x/abstractaccount/ante.go:151-156 | a passed post handler leaves no marker |
| `Theorems.DeliverSound` | README.md:96-139 | one delivery under the commit rule: IDs, params, the marker afterwards, and which contract `after_tx` runs on |
| `Commit.Discards` | README.md:96-139 | a tx that does not pass ante changes nothing; two that pass it alike and do not commit leave the same state whatever their messages and post handlers did |
| `Commit.Keeps` | README.md:96-139 | what is kept is the ante handler's state, or that of messages and post handler when all went through |
| `Commit.ProposalAtomic` | README.md:96-139 | a proposal takes effect as a whole or not at all |
| `Gas.ScriptShift` | x/abstractaccount/ante.go:263-264 | a contract execution depends on the gas that is left and not on what its meter shows, and more gas changes nothing unless it ran out |
| `Gas.MeterHolds` | README.md:96-139 | the meter of a delivered tx holds exactly what its messages spend when run on the gas left to them, and what later handlers charged |
| `Gas.HookGasIsOwn` | x/abstractaccount/ante.go:259-278 | when the hooks' contracts first spend any more gas, still within their allowances, the delivery is the same, its meter included |
| `Runs.PendingMeans` | x/abstractaccount/ante.go:72-76 | over any deliveries the marker is a exactly when an abstract account tx of a passed the ante handler, and since then no other did and no post handler committed |
| `Runs.MarkerRun` | x/abstractaccount/keeper/keeper.go:112-126 | over every run from genesis the stored marker is that one, and it decides whom a post hook calls |
| `Runs.HooksPaired` | x/abstractaccount/ante.go:147-180 | if every tx that passes the ante handler also commits, `after_tx` runs once per abstract account tx, on the account `before_tx` ran on, and for no other tx |
| `Runs.StrayHook` | x/abstractaccount/ante.go:148-156 | without that proviso: a tx that is not an abstract account's calls some `after_tx` exactly when a marker is outstanding |
| `Runs.StrayHookExample` | x/abstractaccount/ante.go:148-156 | two txs of which the second, an ordinary one, runs the first one's `after_tx` |
| `Runs.RegistrationIDs` | x/abstractaccount/keeper/keeper.go:91-108 | over every run, nested and rolled back registrations included, the surviving ones carry exactly the IDs from genesis to the counter, each once, wrapping at 2^64 |
| `Runs.RegistrationInterval` | x/abstractaccount/keeper/keeper.go:91-108 | short of the wrap-around, an ID is registered exactly when it lies from the genesis ID up to below the next ID |
| `Runs.LabelInjective` | x/abstractaccount/keeper/msg_server.go:63 | different IDs have different labels |
| `Runs.LabelsDistinct` | x/abstractaccount/types/keys.go:12-21 | the labels of the surviving registrations are pairwise distinct exactly as long as there are no more than 2^64 |
| `Runs.ParamsRun` | x/abstractaccount/keeper/keeper.go:51-87 | in every reachable state the bytes under the params key decode to valid params, the last ones accepted; the first came from genesis, and all later ones from the authority |
| `Runs.GenesisState` | x/abstractaccount/keeper/genesis.go:11-19 | genesis succeeds exactly on valid params, and what it stores is what is read |
| `Runs.ExportImport` | x/abstractaccount/keeper/genesis.go:11-31 | genesis from an export reproduces params and next ID, over any store |
| `Runs.ExportRun` | x/abstractaccount/keeper/genesis.go:21-31 | every reachable state can be exported, and genesis from the export reproduces its params and next ID; an outstanding signer marker is not exported |
| `App.Keeper.GetParams` | x/abstractaccount/keeper/keeper.go:51-65 | missing, undecodable or decoded params |
| `App.Keeper.SetParams` | x/abstractaccount/keeper/keeper.go:67-87 | stores the encoding exactly when the params are valid |
| `App.Keeper.GetAndIncrementNextAccountID` | x/abstractaccount/keeper/keeper.go:91-97 | returns the counter and advances it, wrapping |
| `App.Keeper.DeliverMsg` | x/abstractaccount/keeper/msg_server.go:24-36 | the handlers in place compute the specified state, gas and outcome |
| `App.Keeper.Register` | x/abstractaccount/keeper/msg_server.go:40-106 | the registration handler, step by step with its early returns, around a contract that may register again |
| `App.Keeper.Execute` | cosmwasm/packages/absacc/src/proto.rs:23-30 | a contract's execution in place, a caught failure restoring the saved state |
| `App.Keeper.SudoWithLimit` | x/abstractaccount/ante.go:259-278 | on a cached branch with a meter of its own, written back only on success; the caller's meter is not touched |
| `App.Keeper.BeforeTx` | x/abstractaccount/ante.go:54-135 | the ante decorator in place, every early return |
| `App.Keeper.AfterTx` | x/abstractaccount/ante.go:147-180 | the post decorator in place |
| `App.Keeper.DeliverMsgs` | README.md:96-139 | the messages of a tx one by one, until one fails, on the tx's meter |
| `App.Keeper.RunTx` | README.md:96-139 | a tx from ante to post on branches of the state and one meter, as the commit rule has it |
| `App.Keeper.Init` | x/abstractaccount/keeper/genesis.go:11-19 | stores genesis or panics |
| `App.Keeper.Export` | x/abstractaccount/keeper/genesis.go:21-31 | what is exported, or the panic |
| `Granter.Account.MakeGrant` | cosmwasm/contracts/granter/src/execute.rs:56-81 | stores the grant exactly when the account itself sends it and it has not expired |
| `Granter.Account.Revoke` | cosmwasm/contracts/granter/src/execute.rs:83-100 | removes the grant exactly when the account itself asks |
| `Granter.Account.AssertHasGrant` | cosmwasm/contracts/granter/src/execute.rs:102-127 | passes exactly when every message has a live grant, and otherwise names the first that has none |
| `Granter.Account.BeforeTx` | cosmwasm/contracts/granter/src/execute.rs:17-54 | accepts exactly the owner's key or a key with live grants for every message, with a verified signature unless simulated; which error otherwise |
| `Granter.GrantStands` | cosmwasm/contracts/granter/src/execute.rs:56-100 | after any history a grant stands exactly when the latest successful call about its key made it |
| `Granter.CoveredIffGranted` | cosmwasm/contracts/granter/src/execute.rs:108-123 | a pair passes exactly when the latest successful call about it is a grant sent by the account itself that is not expired |
| `Granter.CheckIffGranted` | cosmwasm/contracts/granter/src/execute.rs:102-127 | so does a tx, for each of its messages |
| `Granter.StaysRejected` | cosmwasm/contracts/granter/src/execute.rs:116-123 | as blocks advance, a pair without a live grant stays rejected until a new grant for it succeeds |
| `GrantQuery.RawInjective` | cosmwasm/contracts/granter/src/query.rs:34-35 | different grants have different storage keys |
| `GrantQuery.AfterPage` | cosmwasm/contracts/granter/src/query.rs:26-36 | what is stored after the last key of a page is what the page left over |
| `GrantQuery.PagesCoverAll` | cosmwasm/contracts/granter/src/query.rs:21-43 | from any start, stored or not, paging with a limit of at least one terminates and returns every stored grant after it once, under its key, ascending |
| `GrantQuery.AllGrants` | cosmwasm/contracts/granter/src/query.rs:21-43 | from the beginning it returns exactly the stored grants, as many as there are, in ascending order of the keys |
| `GrantQuery.GrantsQuery` | cosmwasm/contracts/granter/src/query.rs:29-42 | no page is above 30, and every grant in it is stored under its key |
| `GrantQuery.PageLength` | cosmwasm/contracts/granter/src/query.rs:29 | a page is as long as asked, ten by default, but no longer than thirty and than what is left |
| `GrantQuery.ZeroLimit` | cosmwasm/contracts/granter/src/query.rs:29 | with a limit of zero a client gets nothing |
| `Totp.Account.Init` | cosmwasm/contracts/asym-totp/src/execute.rs:10-22 | succeeds exactly when the window length is positive and the first window is over, and stores the previous window |
| `Totp.Account.BeforeTx` | cosmwasm/contracts/asym-totp/src/execute.rs:24-74 | accepts exactly when both signatures are good, or the call is simulated, and the window is later than the stored one, which it then becomes; which error otherwise |
| `Totp.AcceptedGenuine` | cosmwasm/contracts/asym-totp/src/execute.rs:44-60 | over any run, each accepted window comes from a call whose signature and password were both good, or from a simulated one |
| `Totp.AcceptedNext` | cosmwasm/contracts/asym-totp/src/execute.rs:37-68 | one more call is accepted exactly when it is such a call and in a later window than all accepted before |
| `Totp.AcceptedIncrease` | cosmwasm/contracts/asym-totp/src/execute.rs:61-68 | accepted counts strictly increase whatever the order of block times, so no window is accepted twice |
| `Totp.AcceptedBound` | cosmwasm/contracts/asym-totp/src/execute.rs:10-69 | after initialization at t0 and with no block time above t1, at most t1/d - t0/d + 1 calls are accepted |
| `Totp.BoundAttained` | cosmwasm/contracts/asym-totp/src/execute.rs:10-69 | the bound is attained |

## Left out

- Store.NextID: reads one to seven bytes as a number, where the library function panics; the module only ever writes eight.
- Histories.RegisterExact: events, the returned data and the funds sent along are not modelled.
- Runs.RegistrationIDs: says nothing of the order in which nested registrations complete, because an inner one ends before its outer one.
- Granter.Account.BeforeTx: takes the owner's key to be set; a contract that was never initialized is not modelled.
- ParamsMessage.ParamsMessage.Unmarshal: a nil list and an empty one are the same; the pre-count's effect on capacity is returned, not stored.
- RegisterMessage.RegisterMessage.Unmarshal: decoded byte fields are fresh values, so reuse of the old buffer by `append(m.Msg[:0], ...)` is not visible; nil and empty `Funds` are the same.
- RegisterMessage.RegisterMessage.PutFunds: a coin's sized marshal is its abstract encoding copied into place, because the coin codec is not part of the repository.
- `MarshalTo` of the genesis and registration messages, which adds nothing to that of the params.
- Messages, params and genesis states whose encoding is 2^63 bytes or longer, and nil pointers for params, on which the code panics.
- Cryptography: signature checks are verdicts supplied with the call.
- The wasm VM and the SDK keepers beyond an execution's writes, gas and submitted messages; contracts do not write the module's own store or replace accounts except through messages.
- Gas.MeterHolds: what the decorators' and handlers' own store accesses charge to the tx's meter is not modelled, nor what earlier decorators have charged before; other handlers' gas is a number supplied with them.
- The 64-bit overflow of a gas meter, and submessages with a gas limit of their own that recover from running out of gas.
- Ante decorators that come before this module's; those that come after are a verdict and the accounts they write.
- Simulation and the mempool check as separate commit modes, and the default signature gas consumer.
- Type URLs of 65536 bytes or more, on which the storage library panics, and the JSON in which contracts receive calls.
- Events, logging, the command line, gRPC, and the generated getters, descriptors and `XXX_` methods.
- The account, event and query codecs, which repeat the same template, and the base, eth and updatable contracts, which are single checks over signatures.
