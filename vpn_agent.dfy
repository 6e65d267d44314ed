/** The agent connman-vpn calls when a VPN connection needs the user:
    ConnmanVPNAgent keeps, besides its input_map, the credential flags and
    the last authentication failure of the session. */
module VpnAgent {
  import opened Qt
  import opened Dbus
  import opened InputRequest

  const ErrorRetry: string := "net.connman.vpn.Agent.Error.Retry"
  const ErrorCanceled: string := "net.connman.vpn.Agent.Error.Canceled"

  const AllowStoreKey: string := "AllowStoreCredentials"
  const AllowRetrieveKey: string := "AllowRetrieveCredentials"
  const KeepKey: string := "KeepCredentials"
  const AuthFailureKey: string := "VpnAgent.AuthFailure"

  /** The four members createInputMap derives from input_map. */
  datatype Session = Session(
    allowStoreCredentials: bool,
    allowRetrieveCredentials: bool,
    keepCredentials: bool,
    authFailure: string)

  /** A boolean member after the flag block: replaced by the entry's
      QVariant::toBool when the key is in input_map, kept otherwise. */
  function FlagAfter(entries: map<string, string>, key: string, prior: bool): bool
  {
    if key in entries then StringToBool(entries[key]) else prior
  }

  /** The flag block at the end of createInputMap; it is not reached when
      the loop returned early. */
  function UpdateSession(s: Session, d: Decoded): Session
  {
    if !d.completed then s
    else Session(
      FlagAfter(d.entries, AllowStoreKey, s.allowStoreCredentials),
      FlagAfter(d.entries, AllowRetrieveKey, s.allowRetrieveCredentials),
      FlagAfter(d.entries, KeepKey, s.keepCredentials),
      if AuthFailureKey in d.entries then d.entries[AuthFailureKey] else s.authFailure)
  }

  /** ReportError: Yes fails the call with the VPN agent's Retry error. */
  function ReportError(answer: Answer): (r: Reply<()>)
    ensures r.ErrorReply? <==> answer == Yes
    ensures r.ErrorReply? ==> r.name == ErrorRetry
  {
    if answer == Yes then ErrorReply(ErrorRetry, "Going to retry the request") else Return(())
  }

  /** The reply of RequestInput once the dialog has been shown. */
  function InputReply(dialog: DialogResult, collected: map<string, string>): (r: Reply<map<string, string>>)
    ensures r.ErrorReply? <==> dialog == Rejected
    ensures r.ErrorReply? ==> r.name == ErrorCanceled
    ensures r.Return? ==> r.value == collected
  {
    if dialog == Rejected then ErrorReply(ErrorCanceled, "User cancelled the dialog") else Return(collected)
  }

  class ConnmanVPNAgent {
    var inputMap: map<string, string>
    var logInputRequest: bool
    var allowStoreCredentials: bool
    var allowRetrieveCredentials: bool
    var keepCredentials: bool
    var authFailure: string

    /** The session members as one value. */
    function Current(): Session
      reads this
    {
      Session(allowStoreCredentials, allowRetrieveCredentials, keepCredentials, authFailure)
    }

    constructor ()
      ensures inputMap == map[] && !logInputRequest
      ensures Current() == Session(false, false, false, "")
    {
      inputMap := map[];
      logInputRequest := false;
      allowStoreCredentials := false;
      allowRetrieveCredentials := false;
      keepCredentials := false;
      authFailure := "";
    }

    /** createInputMap of the VPN agent: the loop of the plain agent with
        control as a third unlocking word, then the flag block. */
    method CreateInputMap(dict: Dict, logOpens: bool)
      modifies this
      ensures inputMap == Decode(Vpn, dict).entries
      ensures Current() == UpdateSession(old(Current()), Decode(Vpn, dict))
      ensures logInputRequest == (old(logInputRequest) && logOpens)
    {
      inputMap := map[];
      if logInputRequest && !logOpens {
        logInputRequest := false;
      }
      var i := 0;
      while i < |dict|
        invariant 0 <= i <= |dict|
        invariant Decode(Vpn, dict[..i]) == Decoded(inputMap, true)
        invariant Current() == old(Current())
        invariant logInputRequest == (old(logInputRequest) && logOpens)
      {
        assert dict[..i + 1][..i] == dict[..i];
        assert Decode(Vpn, dict[..i + 1]) == Step(Vpn, Decoded(inputMap, true), dict[i]);
        var (key, value) := dict[i];
        if !value.MapArgument? {
          AbortIsFinal(Vpn, dict, i + 1);
          return;
        }
        var m := ExtractMap(value.attributes);
        if "Requirement" in m {
          var val := "";
          if || ContainsNoCase(m["Requirement"], Mandatory)
             || ContainsNoCase(m["Requirement"], Informational)
             || ContainsNoCase(m["Requirement"], Control)
          {
            if "Value" in m {
              val := m["Value"];
            }
          }
          inputMap := inputMap[key := val];
        }
        i := i + 1;
      }
      assert dict[..i] == dict;
      ApplySessionFlags();
    }

    /** The "data members" block closing createInputMap: each member whose
        key is in input_map is overwritten from its entry. */
    method ApplySessionFlags()
      modifies this`allowStoreCredentials, this`allowRetrieveCredentials, this`keepCredentials, this`authFailure
      ensures Current() == UpdateSession(old(Current()), Decoded(inputMap, true))
    {
      if AllowStoreKey in inputMap {
        allowStoreCredentials := StringToBool(inputMap[AllowStoreKey]);
      }
      if AllowRetrieveKey in inputMap {
        allowRetrieveCredentials := StringToBool(inputMap[AllowRetrieveKey]);
      }
      if KeepKey in inputMap {
        keepCredentials := StringToBool(inputMap[KeepKey]);
      }
      if AuthFailureKey in inputMap {
        authFailure := inputMap[AuthFailureKey];
      }
    }

    /** RequestInput: decode the dict, show input_map, and reply with the
        dialog's dict or with Canceled. */
    method RequestInput(dict: Dict, logOpens: bool, dialog: DialogResult, collected: map<string, string>)
      returns (reply: Reply<map<string, string>>)
      modifies this
      ensures inputMap == Decode(Vpn, dict).entries
      ensures Current() == UpdateSession(old(Current()), Decode(Vpn, dict))
      ensures logInputRequest == (old(logInputRequest) && logOpens)
      ensures reply == InputReply(dialog, collected)
    {
      CreateInputMap(dict, logOpens);
      if dialog == Rejected {
        reply := ErrorReply(ErrorCanceled, "User cancelled the dialog");
      } else {
        reply := Return(collected);
      }
    }
  }

  /** A field that is not a map anywhere in the dict stops the loop before
      the flag block: all four members keep their values. */
  lemma AbortKeepsSession(s: Session, dict: Dict, i: int)
    requires 0 <= i < |dict| && !dict[i].1.MapArgument?
    ensures UpdateSession(s, Decode(Vpn, dict)) == s
  {
    DecodeShape(Vpn, dict);
  }

  /** A member whose key no requirement-bearing field of the dict carries
      keeps its value: absent keys do not reset the session. */
  lemma AbsentKeysKeepSession(s: Session, dict: Dict)
    ensures !Requested(dict, |dict|, AllowStoreKey) ==>
      UpdateSession(s, Decode(Vpn, dict)).allowStoreCredentials == s.allowStoreCredentials
    ensures !Requested(dict, |dict|, AllowRetrieveKey) ==>
      UpdateSession(s, Decode(Vpn, dict)).allowRetrieveCredentials == s.allowRetrieveCredentials
    ensures !Requested(dict, |dict|, KeepKey) ==>
      UpdateSession(s, Decode(Vpn, dict)).keepCredentials == s.keepCredentials
    ensures !Requested(dict, |dict|, AuthFailureKey) ==>
      UpdateSession(s, Decode(Vpn, dict)).authFailure == s.authFailure
  {
    DecodeShape(Vpn, dict);
    forall k | Requested(dict, AbortIndex(dict), k) ensures Requested(dict, |dict|, k) {
    }
  }

  /** A completed decode sets each member from its field: the boolean
      members from toBool of the field's entry, authFailure to the entry. */
  lemma FieldSetsSession(s: Session, dict: Dict, i: int)
    requires Ascending(dict) && AbortIndex(dict) == |dict|
    requires 0 <= i < |dict| && HasRequirement(dict[i].1)
    ensures var after := UpdateSession(s, Decode(Vpn, dict));
      var v := EntryValue(Vpn, ToMap(dict[i].1.attributes));
      && (dict[i].0 == AllowStoreKey ==> after.allowStoreCredentials == StringToBool(v))
      && (dict[i].0 == AllowRetrieveKey ==> after.allowRetrieveCredentials == StringToBool(v))
      && (dict[i].0 == KeepKey ==> after.keepCredentials == StringToBool(v))
      && (dict[i].0 == AuthFailureKey ==> after.authFailure == v)
  {
    DecodeShape(Vpn, dict);
    DecodeValue(Vpn, dict, i);
  }

  /** A flag field whose requirement does not unlock its Value decodes to
      the empty string, so the flag becomes false. */
  lemma LockedFlagIsFalse(s: Session, dict: Dict, i: int)
    requires Ascending(dict) && AbortIndex(dict) == |dict|
    requires 0 <= i < |dict| && HasRequirement(dict[i].1)
    requires !Unlocks(Vpn, ToMap(dict[i].1.attributes)["Requirement"])
    ensures var after := UpdateSession(s, Decode(Vpn, dict));
      && (dict[i].0 == AllowStoreKey ==> !after.allowStoreCredentials)
      && (dict[i].0 == AllowRetrieveKey ==> !after.allowRetrieveCredentials)
      && (dict[i].0 == KeepKey ==> !after.keepCredentials)
  {
    FieldSetsSession(s, dict, i);
    assert Lower("") == "";
  }

  /** A requirement of "Control" unlocks the Value for the VPN agent but
      not for the plain agent. */
  lemma ControlUnlocksOnlyVpn()
    ensures Unlocks(Vpn, "Control")
    ensures !Unlocks(Plain, "Control")
  {
    var l := Lower("Control");
    assert l == Control;
    if Contains(l, Mandatory) {
      ContainsFits(l, Mandatory);
    }
    if Contains(l, Informational) {
      ContainsFits(l, Informational);
    }
  }
}
