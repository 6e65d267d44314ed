/** The decoding of a RequestInput dict into the agents' input_map, shared
    by the plain agent and the VPN agent: the two copies of createInputMap
    differ only in the requirement words that let a field keep its Value. */
module InputRequest {
  import opened Qt

  /** One value of the dict as the QVariant arrives: something that is not
      a QDBusArgument, a QDBusArgument that is not a map, or a map of
      sub-attributes (Requirement, Value, Type, ...) in the order the
      argument delivers them, each value already converted by toString. */
  datatype RawValue =
    | NotArgument
    | NonMapArgument
    | MapArgument(attributes: seq<(string, string)>)

  /** The dict of a RequestInput call, in QMap iteration order. */
  type Dict = seq<(string, RawValue)>

  /** Which requirement words unlock a field's Value. */
  datatype Policy = Plain | Vpn

  const Mandatory: string := "mandatory"
  const Informational: string := "informational"
  const Control: string := "control"

  /** A requirement mentions mandatory or informational (and for the VPN
      agent also control), ignoring letter case. */
  predicate Unlocks(p: Policy, requirement: string)
  {
    || ContainsNoCase(requirement, Mandatory)
    || ContainsNoCase(requirement, Informational)
    || (p == Vpn && ContainsNoCase(requirement, Control))
  }

  /** A map-shaped field that carries a Requirement attribute. */
  predicate HasRequirement(v: RawValue)
  {
    v.MapArgument? && "Requirement" in ToMap(v.attributes)
  }

  /** The input_map value of a field with flattened attributes m: its Value
      when the requirement unlocks it and a Value is there, else "". */
  function EntryValue(p: Policy, m: map<string, string>): string
    requires "Requirement" in m
  {
    if Unlocks(p, m["Requirement"]) && "Value" in m then m["Value"] else ""
  }

  /** The state createInputMap leaves: the entries of input_map, and whether
      the loop ran to the end rather than returning early. */
  datatype Decoded = Decoded(entries: map<string, string>, completed: bool)

  /** One turn of the loop of createInputMap: a field that is not a map
      ends the loop, a map with a Requirement writes the field's entry, any
      other map leaves input_map as it is. */
  function Step(p: Policy, prev: Decoded, field: (string, RawValue)): Decoded
  {
    if !prev.completed then prev
    else match field.1
      case MapArgument(attributes) =>
        var m := ToMap(attributes);
        if "Requirement" in m then Decoded(prev.entries[field.0 := EntryValue(p, m)], true)
        else prev
      case _ => Decoded(prev.entries, false)
  }

  /** The whole loop of createInputMap over the dict: once a field stops
      it, what was written stays written. */
  function Decode(p: Policy, dict: Dict): Decoded
    decreases |dict|
  {
    if dict == [] then Decoded(map[], true)
    else Step(p, Decode(p, dict[..|dict| - 1]), dict[|dict| - 1])
  }

  /** The position at which the loop stops: the first field that is not a
      map, or the length of the dict when every field is one. */
  function AbortIndex(dict: Dict): (n: nat)
    ensures n <= |dict|
    ensures forall i :: 0 <= i < n ==> dict[i].1.MapArgument?
    ensures n < |dict| ==> !dict[n].1.MapArgument?
    decreases |dict|
  {
    if dict == [] then 0
    else
      var a := AbortIndex(dict[..|dict| - 1]);
      if a < |dict| - 1 then a
      else if dict[|dict| - 1].1.MapArgument? then |dict|
      else |dict| - 1
  }

  /** Among the first n fields there is one named k that has a Requirement. */
  predicate Requested(dict: Dict, n: int, k: string)
  {
    exists i :: 0 <= i < n && i < |dict| && dict[i].0 == k && HasRequirement(dict[i].1)
  }

  lemma RequestedPrefix(dict: Dict, m: nat, n: int, k: string)
    requires n <= m <= |dict|
    ensures Requested(dict[..m], n, k) <==> Requested(dict, n, k)
  {
    if Requested(dict, n, k) {
      var i :| 0 <= i < n && i < |dict| && dict[i].0 == k && HasRequirement(dict[i].1);
      assert dict[..m][i] == dict[i];
    }
    if Requested(dict[..m], n, k) {
      var i :| 0 <= i < n && i < m && dict[..m][i].0 == k && HasRequirement(dict[..m][i].1);
      assert dict[..m][i] == dict[i];
    }
  }

  /** The loop finishes exactly when every field is a map, and input_map
      ends up with exactly the fields before the stop that carry a
      Requirement, whatever that requirement is. */
  lemma {:induction false} DecodeShape(p: Policy, dict: Dict)
    ensures Decode(p, dict).completed <==> AbortIndex(dict) == |dict|
    ensures forall k :: k in Decode(p, dict).entries <==> Requested(dict, AbortIndex(dict), k)
    decreases |dict|
  {
    if dict != [] {
      var n := |dict|;
      var front := dict[..n - 1];
      var last := dict[n - 1];
      DecodeShape(p, front);
      var a := AbortIndex(front);
      forall k ensures Requested(front, a, k) <==> Requested(dict, a, k) {
        RequestedPrefix(dict, n - 1, a, k);
      }
      if a == n - 1 && HasRequirement(last.1) {
        forall k ensures Requested(dict, n, k) <==> Requested(dict, n - 1, k) || k == last.0 {
          if Requested(dict, n, k) {
            var i :| 0 <= i < n && dict[i].0 == k && HasRequirement(dict[i].1);
            assert i < n - 1 || k == last.0;
          }
        }
      } else if a == n - 1 && last.1.MapArgument? {
        forall k ensures Requested(dict, n, k) <==> Requested(dict, n - 1, k) {
          if Requested(dict, n, k) {
            var i :| 0 <= i < n && dict[i].0 == k && HasRequirement(dict[i].1);
            assert i < n - 1;
          }
        }
      }
    }
  }

  /** Every field before the stop that carries a Requirement gets the entry
      EntryValue gives it (QMap keys are distinct, so no later field
      overwrites it). */
  lemma {:induction false} DecodeValue(p: Policy, dict: Dict, i: int)
    requires Ascending(dict)
    requires 0 <= i < AbortIndex(dict) && HasRequirement(dict[i].1)
    ensures dict[i].0 in Decode(p, dict).entries
    ensures Decode(p, dict).entries[dict[i].0] == EntryValue(p, ToMap(dict[i].1.attributes))
    decreases |dict|
  {
    var n := |dict|;
    var front := dict[..n - 1];
    var prev := Decode(p, front);
    var last := dict[n - 1];
    if i < n - 1 {
      AscendingPrefix(dict, n - 1);
      assert i < AbortIndex(front);
      assert front[i] == dict[i];
      DecodeValue(p, front, i);
      AscendingDistinct(dict, i, n - 1);
      assert last.0 != dict[i].0;
    } else {
      DecodeShape(p, front);
      assert prev.completed;
      assert last.1.MapArgument? && "Requirement" in ToMap(last.1.attributes);
    }
  }

  /** Once the loop has returned early, later fields change nothing. */
  lemma {:induction false} AbortIsFinal(p: Policy, dict: Dict, n: nat)
    requires n <= |dict|
    requires !Decode(p, dict[..n]).completed
    ensures Decode(p, dict) == Decode(p, dict[..n])
    decreases |dict|
  {
    if n < |dict| {
      var front := dict[..|dict| - 1];
      assert front[..n] == dict[..n];
      AbortIsFinal(p, front, n);
    } else {
      assert dict[..n] == dict;
    }
  }

  /** The entries are the dict's own keys: input_map never gains a key the
      dict does not have. */
  lemma DecodeKeysInDict(p: Policy, dict: Dict)
    ensures Decode(p, dict).entries.Keys <= KeysOf(dict)
  {
    DecodeShape(p, dict);
    forall k | k in Decode(p, dict).entries ensures k in KeysOf(dict) {
      var i :| 0 <= i < AbortIndex(dict) && i < |dict| && dict[i].0 == k && HasRequirement(dict[i].1);
    }
  }

  /** A field without a Requirement attribute gets no entry. */
  lemma NoRequirementNoEntry(p: Policy, dict: Dict, i: int)
    requires Ascending(dict)
    requires 0 <= i < |dict| && !HasRequirement(dict[i].1)
    ensures dict[i].0 !in Decode(p, dict).entries
  {
    DecodeShape(p, dict);
    if dict[i].0 in Decode(p, dict).entries {
      var j :| 0 <= j < AbortIndex(dict) && j < |dict| && dict[j].0 == dict[i].0 && HasRequirement(dict[j].1);
      AscendingDistinct(dict, i, j);
    }
  }

  /** The field that stops the loop and every field after it get no entry
      (the fields before it keep theirs: DecodeValue). */
  lemma AbortLeavesPrefix(p: Policy, dict: Dict, i: int)
    requires Ascending(dict)
    requires AbortIndex(dict) <= i < |dict|
    ensures dict[i].0 !in Decode(p, dict).entries
  {
    DecodeShape(p, dict);
    if dict[i].0 in Decode(p, dict).entries {
      var j :| 0 <= j < AbortIndex(dict) && j < |dict| && dict[j].0 == dict[i].0 && HasRequirement(dict[j].1);
      AscendingDistinct(dict, i, j);
    }
  }

  /** When no field carries a Requirement, input_map stays empty. */
  lemma NoRequirementsEmpty(p: Policy, dict: Dict)
    requires forall i :: 0 <= i < |dict| ==> !HasRequirement(dict[i].1)
    ensures Decode(p, dict).entries == map[]
  {
    DecodeShape(p, dict);
    forall k ensures k !in Decode(p, dict).entries {
      assert !Requested(dict, AbortIndex(dict), k);
    }
  }

  /** A requirement that unlocks the plain agent's value unlocks the VPN
      agent's too. */
  lemma PlainUnlocksVpn(requirement: string)
    requires Unlocks(Plain, requirement)
    ensures Unlocks(Vpn, requirement)
  {
  }

  /** The extraction of one map-typed QDBusArgument into the QMap m of
      createInputMap: beginMapEntry, read key and value, insert, until
      atEnd; a repeated key keeps the value inserted last. */
  method ExtractMap(attributes: seq<(string, string)>) returns (m: map<string, string>)
    ensures m == ToMap(attributes)
  {
    m := map[];
    var i := 0;
    while i < |attributes|
      invariant 0 <= i <= |attributes|
      invariant m == ToMap(attributes[..i])
    {
      var (k, v) := attributes[i];
      m := m[k := v];
      i := i + 1;
      assert attributes[..i][..i - 1] == attributes[..i - 1];
    }
    assert attributes[..i] == attributes;
  }
}
