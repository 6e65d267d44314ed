/** The user agent connman calls when a connection needs the user:
    ConnmanAgent with its input_map, and the replies its slots send. */
module Agent {
  import opened Qt
  import opened Dbus
  import opened InputRequest

  const ErrorRetry: string := "net.connman.Agent.Error.Retry"
  const ErrorCanceled: string := "net.connman.Agent.Error.Canceled"

  /** ReportError: the error is shown with a Yes/No retry question; Yes
      fails the call with Retry, No returns normally. */
  function ReportError(answer: Answer): (r: Reply<()>)
    ensures r.ErrorReply? <==> answer == Yes
    ensures r.ErrorReply? ==> r.name == ErrorRetry
  {
    if answer == Yes then ErrorReply(ErrorRetry, "Going to retry the request") else Return(())
  }

  /** RequestBrowser: a rejected dialog fails the call with Canceled. */
  function RequestBrowser(dialog: DialogResult): (r: Reply<()>)
    ensures r.ErrorReply? <==> dialog == Rejected
    ensures r.ErrorReply? ==> r.name == ErrorCanceled
  {
    if dialog == Rejected then ErrorReply(ErrorCanceled, "User cancelled the dialog") else Return(())
  }

  /** The reply of RequestInput once the dialog has been shown: Canceled
      when it was rejected, otherwise the dict the dialog filled in. */
  function InputReply(dialog: DialogResult, collected: map<string, string>): (r: Reply<map<string, string>>)
    ensures r.ErrorReply? <==> dialog == Rejected
    ensures r.ErrorReply? ==> r.name == ErrorCanceled
    ensures r.Return? ==> r.value == collected
  {
    if dialog == Rejected then ErrorReply(ErrorCanceled, "User cancelled the dialog") else Return(collected)
  }

  class ConnmanAgent {
    /** The fields of the last RequestInput, with the values shown to the user. */
    var inputMap: map<string, string>
    /** Whether createInputMap writes the input-request log. */
    var logInputRequest: bool

    constructor ()
      ensures inputMap == map[] && !logInputRequest
    {
      inputMap := map[];
      logInputRequest := false;
    }

    /** createInputMap: input_map is cleared, then filled field by field
        until a value turns out not to be a map. The log file is left out
        except for its one lasting effect: when it cannot be opened
        (logOpens false) logging is switched off for good. */
    method CreateInputMap(dict: Dict, logOpens: bool)
      modifies this
      ensures inputMap == Decode(Plain, dict).entries
      ensures logInputRequest == (old(logInputRequest) && logOpens)
    {
      inputMap := map[];
      if logInputRequest && !logOpens {
        logInputRequest := false;
      }
      var i := 0;
      while i < |dict|
        invariant 0 <= i <= |dict|
        invariant Decode(Plain, dict[..i]) == Decoded(inputMap, true)
        invariant logInputRequest == (old(logInputRequest) && logOpens)
      {
        assert dict[..i + 1][..i] == dict[..i];
        assert Decode(Plain, dict[..i + 1]) == Step(Plain, Decoded(inputMap, true), dict[i]);
        var (key, value) := dict[i];
        if !value.MapArgument? {
          AbortIsFinal(Plain, dict, i + 1);
          return;
        }
        var m := ExtractMap(value.attributes);
        if "Requirement" in m {
          var val := "";
          if ContainsNoCase(m["Requirement"], Mandatory) || ContainsNoCase(m["Requirement"], Informational) {
            if "Value" in m {
              val := m["Value"];
            }
          }
          inputMap := inputMap[key := val];
        }
        i := i + 1;
      }
      assert dict[..i] == dict;
    }

    /** RequestInput: decode the dict into input_map, show it, and reply
        with the dialog's dict or with Canceled. */
    method RequestInput(dict: Dict, logOpens: bool, dialog: DialogResult, collected: map<string, string>)
      returns (reply: Reply<map<string, string>>)
      modifies this
      ensures inputMap == Decode(Plain, dict).entries
      ensures logInputRequest == (old(logInputRequest) && logOpens)
      ensures reply == InputReply(dialog, collected)
    {
      CreateInputMap(dict, logOpens);
      if dialog == Rejected {
        reply := ErrorReply(ErrorCanceled, "User cancelled the dialog");
      } else {
        reply := Return(collected);
      }
    }
  }

  /** Optional and alternate fields are not dropped: they get an entry
      whose value is empty, whatever Value they carry. */
  lemma OptionalKeptEmpty(dict: Dict, i: int)
    requires Ascending(dict)
    requires 0 <= i < AbortIndex(dict) && HasRequirement(dict[i].1)
    requires ToMap(dict[i].1.attributes)["Requirement"] in {"optional", "alternate"}
    ensures dict[i].0 in Decode(Plain, dict).entries
    ensures Decode(Plain, dict).entries[dict[i].0] == ""
  {
    DecodeValue(Plain, dict, i);
    var r := ToMap(dict[i].1.attributes)["Requirement"];
    if ContainsNoCase(r, Mandatory) {
      ContainsFits(Lower(r), Mandatory);
    }
    if ContainsNoCase(r, Informational) {
      ContainsFits(Lower(r), Informational);
    }
  }
}
