# cmst agents and counter, modelled in Dafny

cmst is a Qt front end for the connman network daemon. connman calls it over
D-Bus in two roles. As an **agent** it asks the user for input: Wi-Fi
passphrases, VPN credentials, browser logins, and retry decisions after
errors. As a **counter** it receives periodic traffic statistics. This project
models the logic behind those calls:

- `createInputMap` of the plain agent and of the VPN agent. It turns the
  dynamically typed `RequestInput` dict into `input_map`, and the VPN agent
  also derives its session flags from it.
- The replies of `RequestInput`, `RequestBrowser` and `ReportError`. Each is
  a function of the dialog's answer.
- The counter's `Usage`. It merges each update into the home and roaming
  snapshots it keeps, and `getLabel` renders a snapshot into a label.

Layout:

- `qt.dfy` (module `Qt`): the Qt and C++ behaviour the core relies on.
  - `QString::contains`, with ASCII lower-casing for `Qt::CaseInsensitive`.
  - `QVariant(QString).toBool()`.
  - `QString` ordering, and the ascending key order of a `QMap`.
  - The map that successive `QMap::insert` calls build.
  - C++ truncating `/` and `%`, and the 32-bit cut of `QVariant::toInt()`.
- `dbus.dfy` (module `Dbus`): a call either returns or fails with a named
  error. Also the dialog and message-box answers, taken as inputs.
- `input_request.dfy` (module `InputRequest`): the shared specification of
  the decoding loop and the method that extracts one inner map.
  - `Decode` runs `Step` once per field.
  - `AbortIndex` is an independent description of where the loop stops.
  - The lemmas characterise the resulting key set and values.
- `agent.dfy` (module `Agent`): class `ConnmanAgent` and the plain agent's
  replies.
- `vpn_agent.dfy` (module `VpnAgent`): class `ConnmanVPNAgent`, its `Session`
  flags and their update rule.
- `counter.dfy` (module `Counter`): class `ConnmanCounter`, `Merge`,
  `GetLabel` and the time breakdown.

A `QMap` is modelled as the sequence of its entries in iteration order.
`Ascending` states that the keys are strictly increasing, which a real QMap
guarantees. The lemmas that need distinct keys, such as "no later field
overwrites an entry", assume it. A `label` is modelled as the sequence of
pieces `getLabel` appends: transmit block, receive block, the Connect Time
title, then the time parts. The translated strings are not modelled.

The model follows the code in three places where it is easy to misread; the
first contradicts the code's own comment at agent.cpp:189-191:

- A field whose requirement is optional or alternate is **kept** in
  `input_map`, with an empty value. It is not dropped
  (`Agent.OptionalKeptEmpty`).
- A field value that is not a map stops the loop with a plain `return`. The
  entries already written for earlier keys **stay**; the map is not emptied
  (`InputRequest.AbortIsFinal`, `InputRequest.DecodeValue`).
- A `Time` of 0 adds **nothing** after the Connect Time title. It does not
  render "0 Seconds" (`Counter.TimePartsExamples`,
  `Counter.NoTimeNothingAfterTitle`).

## Model

| member | source | states |
|---|---|---|
| `Qt.Lower` | apps/cmstapp/code/agent/agent.cpp:194 | the case folding of `Qt::CaseInsensitive`: same length, each character lower-cased on its own (ASCII) |
| `Qt.Contains` | apps/cmstapp/code/agent/agent.cpp:194 | `QString::contains`: a left-to-right substring search; `ContainsIff` and `ContainsFits` prove what it finds |
| `Qt.ContainsIff` | apps/cmstapp/code/agent/agent.cpp:194 | the substring search used for requirement words succeeds exactly when the word occurs at some position of the text |
| `Qt.ContainsNoCase` | apps/cmstapp/code/agent/agent.cpp:194 | `contains(w, Qt::CaseInsensitive)` for a lower-case needle: `Contains` on the folded text; `OptionalKeptEmpty` and `ControlUnlocksOnlyVpn` use it on the three requirement words |
| `Qt.StringToBool` | apps/cmstapp/code/vpn_agent/vpnagent.cpp:197-199 | `QVariant(QString).toBool()`: false for "", "0" and "false" in any letter case, true otherwise; `LockedFlagIsFalse` relies on "" giving false |
| `Qt.Less` | apps/cmstapp/code/agent/agent.cpp:160-161 | `QString` ordering, lexicographic on character codes with a proper prefix first; `LessIrreflexive` proves no key is below itself |
| `Qt.Ascending` | apps/cmstapp/code/agent/agent.cpp:160-161 | the strictly ascending key order in which a `QMap` is iterated; `AscendingDistinct` and `AscendingPrefix` prove its keys distinct and its prefixes ascending |
| `Qt.ToMap` | apps/cmstapp/code/agent/agent.cpp:178-186 | the map successive `QMap::insert` calls build from an empty map, a repeated key replaced; `ToMapKeys`, `ToMapLast` and `ToMapAscending` prove its keys and values |
| `Qt.ContainsFits` | apps/cmstapp/code/agent/agent.cpp:194 | a word is found only in a text at least as long, and in one of equal length only if they are equal |
| `Qt.ToMapKeys` | apps/cmstapp/code/agent/agent.cpp:178-186 | the map built by the inserts holds exactly the keys that were inserted |
| `Qt.ToMapLast` | apps/cmstapp/code/agent/agent.cpp:178-186 | a repeated sub-key keeps the value inserted last |
| `Qt.AscendingDistinct` | apps/cmstapp/code/agent/agent.cpp:160-161 | the keys of a QMap taken in iteration order are pairwise distinct |
| `Qt.CDiv` | apps/cmstapp/code/counter/counter.cpp:109-128 | C++ `/` on `int`, truncating toward zero; `DivModTruncated` proves it together with `CMod` |
| `Qt.CMod` | apps/cmstapp/code/counter/counter.cpp:115-128 | C++ `%` on `int`, the remainder taking the dividend's sign; `DivModTruncated` proves its bound and sign |
| `Qt.DivModTruncated` | apps/cmstapp/code/counter/counter.cpp:109-130 | C++ truncating `/` and `%` reconstruct the dividend; the remainder is smaller than the divisor and has the dividend's sign |
| `Qt.ToInt32` | apps/cmstapp/code/counter/counter.cpp:108 | `toInt()` yields a 32-bit value congruent to the stored one modulo 2^32 |
| `InputRequest.HasRequirement` | apps/cmstapp/code/agent/agent.cpp:166-192 | a field whose value is a map and whose inner map has a Requirement attribute: the fields that, before the stop, get an `input_map` entry (`DecodeShape`) |
| `InputRequest.Unlocks` | apps/cmstapp/code/vpn_agent/vpnagent.cpp:186 | the requirement mentions mandatory or informational, ignoring case, and for the VPN agent also control (agent.cpp:194); `PlainUnlocksVpn` and `ControlUnlocksOnlyVpn` compare the two policies |
| `InputRequest.EntryValue` | apps/cmstapp/code/agent/agent.cpp:193-196 | the value an entry gets: Value when the requirement unlocks it and a Value exists, else ""; `DecodeValue` proves every entry has it |
| `InputRequest.Step` | apps/cmstapp/code/agent/agent.cpp:166-198 | one turn of the loop: a non-map value ends it, a map with Requirement writes `EntryValue` under the field's key, any other map writes nothing; the body of the `CreateInputMap` loop asserts that each turn is one `Step` |
| `InputRequest.Decode` | apps/cmstapp/code/agent/agent.cpp:159-202 | the whole loop over the dict, `Step` after `Step` starting from an empty map; `DecodeShape`, `DecodeValue` and `AbortIsFinal` describe its result independently |
| `InputRequest.ExtractMap` | apps/cmstapp/code/agent/agent.cpp:173-187 | the inner `while (!qdba.atEnd())` loop yields exactly the map built by inserting the attributes in order |
| `InputRequest.AbortIndex` | apps/cmstapp/code/agent/agent.cpp:166-171 | the stop position is the first field that is not a map, or the end when every field is one |
| `InputRequest.DecodeShape` | apps/cmstapp/code/agent/agent.cpp:160-202 | the loop completes iff no field stops it; a key is in `input_map` iff a field before the stop has it and carries a Requirement, whatever that requirement is |
| `InputRequest.DecodeValue` | apps/cmstapp/code/agent/agent.cpp:192-198 | every field before the stop that has a Requirement maps to its Value when the requirement unlocks it and a Value exists, and to "" otherwise |
| `InputRequest.AbortIsFinal` | apps/cmstapp/code/agent/agent.cpp:166-171 | after the early return, later fields change nothing; the partial map written so far is what remains |
| `InputRequest.AbortLeavesPrefix` | apps/cmstapp/code/agent/agent.cpp:166-171 | neither the field that stops the loop nor any later field gets an entry |
| `InputRequest.DecodeKeysInDict` | apps/cmstapp/code/agent/agent.cpp:160-198 | the keys of `input_map` are a subset of the dict's keys |
| `InputRequest.NoRequirementNoEntry` | apps/cmstapp/code/agent/agent.cpp:192 | a field whose inner map has no Requirement gets no entry |
| `InputRequest.NoRequirementsEmpty` | apps/cmstapp/code/agent/agent.cpp:192-199 | when no field has a Requirement, `input_map` is empty |
| `InputRequest.PlainUnlocksVpn` | apps/cmstapp/code/vpn_agent/vpnagent.cpp:186 | every requirement that unlocks a value for the plain agent unlocks it for the VPN agent |
| `Agent.ReportError` | apps/cmstapp/code/agent/agent.cpp:82-88 | the call fails with `net.connman.Agent.Error.Retry` exactly when the user answers Yes |
| `Agent.RequestBrowser` | apps/cmstapp/code/agent/agent.cpp:99 | the call fails with `net.connman.Agent.Error.Canceled` exactly when the dialog is rejected |
| `Agent.InputReply` | apps/cmstapp/code/agent/agent.cpp:116-123 | the reply is the Canceled error exactly when the dialog is rejected, and otherwise the dialog's dict |
| `Agent.ConnmanAgent.constructor` | apps/cmstapp/code/agent/agent.cpp:51-57 | a new agent has an empty `input_map` and logging off |
| `Agent.ConnmanAgent.CreateInputMap` | apps/cmstapp/code/agent/agent.cpp:144-206 | `input_map` becomes `Decode` of this dict alone, because it is cleared first; logging stays on only if it was on and the log opens |
| `Agent.ConnmanAgent.RequestInput` | apps/cmstapp/code/agent/agent.cpp:107-124 | decodes the dict into `input_map`, then replies as `InputReply` says |
| `Agent.OptionalKeptEmpty` | apps/cmstapp/code/agent/agent.cpp:190-198 | an optional or alternate field before the stop is kept, with value "" |
| `VpnAgent.ReportError` | apps/cmstapp/code/vpn_agent/vpnagent.cpp:86-92 | the call fails with `net.connman.vpn.Agent.Error.Retry` exactly when the user answers Yes |
| `VpnAgent.InputReply` | apps/cmstapp/code/vpn_agent/vpnagent.cpp:108-115 | the reply is `net.connman.vpn.Agent.Error.Canceled` exactly when the dialog is rejected, and otherwise the dialog's dict |
| `VpnAgent.ConnmanVPNAgent.constructor` | apps/cmstapp/code/vpn_agent/vpnagent.cpp:50-60 | all three credential flags start false and `authFailure` starts empty |
| `VpnAgent.ConnmanVPNAgent.CreateInputMap` | apps/cmstapp/code/vpn_agent/vpnagent.cpp:136-204 | `input_map` becomes the VPN decode of the dict; the session becomes `UpdateSession` of the old session and that decode |
| `VpnAgent.FlagAfter` | apps/cmstapp/code/vpn_agent/vpnagent.cpp:197-199 | a boolean member after the flag block: `toBool` of its entry when the key is present, its prior value otherwise; `FieldSetsSession` and `AbsentKeysKeepSession` prove both cases |
| `VpnAgent.UpdateSession` | apps/cmstapp/code/vpn_agent/vpnagent.cpp:158-200 | the session after `createInputMap`: unchanged when the loop returned early, otherwise each member updated from its entry; `AbortKeepsSession`, `AbsentKeysKeepSession` and `FieldSetsSession` prove its cases |
| `VpnAgent.ConnmanVPNAgent.ApplySessionFlags` | apps/cmstapp/code/vpn_agent/vpnagent.cpp:196-200 | each member is overwritten from its `input_map` entry when the key is present, and otherwise left unchanged |
| `VpnAgent.ConnmanVPNAgent.RequestInput` | apps/cmstapp/code/vpn_agent/vpnagent.cpp:99-116 | decodes and updates the session, then replies as `InputReply` says |
| `VpnAgent.AbortKeepsSession` | apps/cmstapp/code/vpn_agent/vpnagent.cpp:158-163 | when any field is not a map, all four session members keep their previous values |
| `VpnAgent.AbsentKeysKeepSession` | apps/cmstapp/code/vpn_agent/vpnagent.cpp:197-200 | a member whose key no requirement-bearing field carries keeps its value in any call, whatever the session before it |
| `VpnAgent.FieldSetsSession` | apps/cmstapp/code/vpn_agent/vpnagent.cpp:184-200 | after a completed decode, each flag is `toBool` of its field's decoded value, and `authFailure` is that value |
| `VpnAgent.LockedFlagIsFalse` | apps/cmstapp/code/vpn_agent/vpnagent.cpp:185-197 | a flag field whose requirement does not unlock its Value decodes to "", so the flag becomes false |
| `VpnAgent.ControlUnlocksOnlyVpn` | apps/cmstapp/code/vpn_agent/vpnagent.cpp:186 | the requirement "Control" unlocks the Value for the VPN agent but not for the plain agent |
| `Counter.ConnmanCounter.constructor` | apps/cmstapp/code/counter/counter.cpp:40-45 | both snapshots start empty |
| `Counter.ConnmanCounter.Usage` | apps/cmstapp/code/counter/counter.cpp:150-170 | each snapshot is merged only with its own update; the two labels are rendered from the merged full snapshots |
| `Counter.Merge` | apps/cmstapp/code/counter/counter.cpp:154-164 | the kept snapshot after the update's entries are written into it; `MergeKeysAndValues`, `MergeOverwrites` and `SuccessiveUpdatesAccumulate` prove its keys and values |
| `Counter.MergeKeysAndValues` | apps/cmstapp/code/counter/counter.cpp:154-164 | the merged key set is the union of the old and new key sets; keys the update does not mention keep their old value |
| `Counter.MergeOverwrites` | apps/cmstapp/code/counter/counter.cpp:154-158 | each key of the update takes its new value |
| `Counter.SuccessiveUpdatesAccumulate` | apps/cmstapp/code/counter/counter.cpp:152-158 | two partial updates of different keys leave both values in the snapshot |
| `Counter.UnitFor` | apps/cmstapp/code/counter/counter.cpp:63-90 | the unit a byte count is shown in, chosen by the three cut-offs for TX and RX alike; `UnitThresholds`, `UnitScale` and `UnitMonotone` prove its bounds |
| `Counter.UnitThresholds` | apps/cmstapp/code/counter/counter.cpp:63-73 | bytes render in Bytes below 1920, in KB below 1966080, in MB below 2013265920, and in GB otherwise |
| `Counter.UnitScale` | apps/cmstapp/code/counter/counter.cpp:63-73 | a scaled value is at least 1.875 of its unit, and is below 1920 of it except in GB |
| `Counter.UnitMonotone` | apps/cmstapp/code/counter/counter.cpp:67-90 | a larger byte count never renders in a smaller unit |
| `Counter.Breakdown` | apps/cmstapp/code/counter/counter.cpp:108-128 | days, hours, minutes and seconds of the time by C++ `/` and `%`; `BreakdownReconstructs` proves they add back up to the time and are in range |
| `Counter.TimeParts` | apps/cmstapp/code/counter/counter.cpp:109-131 | the time parts `getLabel` appends, each shown when positive or when a larger part is non-zero; `TimePartsDropLeadingZeros`, `TimePartsTotal` and `TimePartsExamples` prove which appear |
| `Counter.BreakdownReconstructs` | apps/cmstapp/code/counter/counter.cpp:108-130 | d·86400 + h·3600 + m·60 + s = t; for t ≥ 0, h < 24, m < 60 and s < 60, and no part is negative |
| `Counter.TimePartsDropLeadingZeros` | apps/cmstapp/code/counter/counter.cpp:109-131 | for t ≥ 0 the shown parts are days, hours, minutes, seconds with the leading zero units removed: once a unit is shown, every smaller unit is shown |
| `Counter.TimePartsTotal` | apps/cmstapp/code/counter/counter.cpp:108-131 | for t ≥ 0 the shown parts add up to t |
| `Counter.TimePartsExamples` | apps/cmstapp/code/counter/counter.cpp:108-131 | 0 s shows nothing; 59 s shows only seconds; 90061 s shows one day, one hour, one minute and one second |
| `Counter.Read` | apps/cmstapp/code/counter/counter.cpp:67-97 | `value(key).toLongLong()` of a counter: the stored number, or 0 for a missing key |
| `Counter.Block` | apps/cmstapp/code/counter/counter.cpp:62-98 | one packet block of the label: the packet, error and dropped counts cut to 32 bits by the `int n` of `tr`, the byte count exact with its unit, missing keys reading 0; `BlockCounts` proves what is shown |
| `Counter.ToInt32InRange` | apps/cmstapp/code/counter/counter.cpp:77-97 | a count that fits in 32 bits passes the `int` conversion unchanged |
| `Counter.BlockCounts` | apps/cmstapp/code/counter/counter.cpp:62-98 | a block shows the byte count exactly, and the packet, error and dropped counts congruent to the stored ones modulo 2^32, equal to them when they fit in 32 bits |
| `Counter.LargePacketCountShownNegative` | apps/cmstapp/code/counter/counter.cpp:77 | 3000000000 transmitted packets are shown as -1294967296 |
| `Counter.GetLabel` | apps/cmstapp/code/counter/counter.cpp:60-134 | the label as its sequence of pieces: transmit block, receive block, title, time parts of `toInt` of Time, each block as `Block` gives it; `LabelLayout` and `NoTimeNothingAfterTitle` prove its layout |
| `Counter.LabelLayout` | apps/cmstapp/code/counter/counter.cpp:60-100 | the label is the transmit block, then the receive block, then the Connect Time title, then only time parts; TX and RX bytes use the same unit rule |
| `Counter.NoTimeNothingAfterTitle` | apps/cmstapp/code/counter/counter.cpp:99-131 | a missing or zero Time adds nothing after the Connect Time title |

## Left out

- D-Bus plumbing is not modelled:
  - the adaptors and object registration, and `Release`;
  - the object path arguments;
  - the `usageUpdated` signal, beyond `Usage` returning the two labels it carries.
- User interface: the dialogs and message boxes, and the information box of
  `Cancel`. Their results are inputs: a `DialogResult` or `Answer`, and the
  dict the dialog fills in.
- Translation: `tr()`, `TranslateStrings::cmtr`, `%L1` digit grouping and
  `%Ln` plurals. The model produces structured label pieces, not text.
- The one-decimal KB/MB/GB numbers: these are floating point. Only the unit
  is chosen, and the raw byte count is kept beside it.
- The input-request log file. The only part modelled is its lasting effect:
  a failed open (`logOpens` false) turns `b_loginputrequest` off.
- `QVariant` conversions are taken as given:
  - `toString` of the inner attributes: they arrive as strings;
  - `toLongLong` of the counters: they arrive as integers (the narrowing of
    the packet counts to `int` by `tr` is modelled, in `Counter.Block`);
  - `toInt` of `Time` is modelled as a 32-bit cut.
- Qt's Unicode case folding is reduced to ASCII lower-casing. The needles
  mandatory, informational and control are lower case already, so only the
  requirement text is folded.
- `QString` ordering is modelled on character codes. Qt compares UTF-16 code
  units, which order differently only outside the Basic Multilingual Plane.
- `ERROR_LAUNCHBROWSER` is defined in agent.cpp but never used, so it is not
  modelled.
- apps/cmstapp/code/vpn_create/vpn_create.h is not part of this model: it
  declares a dialog class and contains no logic.
- Counter.TimePartsDropLeadingZeros: stated only for t ≥ 0. For a `Time`
  whose 32-bit cut by `toInt` is negative, `getLabel` never shows
  the days, because it tests `num_d > 0`. `TimeParts` models that case as
  written, but no ordering lemma is given for it.
- Counter.TimePartsTotal: stated only for t ≥ 0, for the same reason.
