/**
 * Names for the DHCP Message Type option (option 53, section 9.6 of RFC 2132)
 * as the analyzer labels them: six codes have a name, every other raw value
 * (RELEASE "7" and INFORM "8" included) becomes "UNKNOWN_" followed by the
 * raw value verbatim.
 */
module MessageTypes {
  import opened Wrappers

  /** The analyzer's table from raw option value to type name. */
  const TypeNames: map<string, string> :=
    map["1" := "DISCOVER", "2" := "OFFER", "3" := "REQUEST",
        "4" := "DECLINE", "5" := "ACK", "6" := "NAK"]

  const UnknownPrefix: string := "UNKNOWN_"

  /** The label a raw message-type value gets: its table name, or the fallback. */
  function Resolve(code: string): (name: string)
    ensures code == "1" ==> name == "DISCOVER"
    ensures code == "2" ==> name == "OFFER"
    ensures code == "3" ==> name == "REQUEST"
    ensures code == "4" ==> name == "DECLINE"
    ensures code == "5" ==> name == "ACK"
    ensures code == "6" ==> name == "NAK"
    ensures code !in {"1", "2", "3", "4", "5", "6"} ==> name == "UNKNOWN_" + code
    ensures name != "unknown"
  {
    if code in TypeNames then TypeNames[code] else UnknownPrefix + code
  }

  /** Recovers the raw value from a label `Resolve` produced; `None` for anything else. */
  function RawCode(name: string): (code: Option<string>)
  {
    if name == "DISCOVER" then Some("1")
    else if name == "OFFER" then Some("2")
    else if name == "REQUEST" then Some("3")
    else if name == "DECLINE" then Some("4")
    else if name == "ACK" then Some("5")
    else if name == "NAK" then Some("6")
    else if |name| >= |UnknownPrefix| && name[..|UnknownPrefix|] == UnknownPrefix then
      Some(name[|UnknownPrefix|..])
    else None
  }

  /** No raw value is lost: the label determines the raw value it came from. */
  lemma ResolveRoundTrip(code: string)
    ensures RawCode(Resolve(code)) == Some(code)
  {
    var name := Resolve(code);
    if code !in TypeNames {
      assert name[..|UnknownPrefix|] == UnknownPrefix;
      assert name[|UnknownPrefix|..] == code;
      assert name[0] == 'U';
    }
  }

  /** Distinct raw values get distinct labels. */
  lemma ResolveInjective(a: string, b: string)
    requires Resolve(a) == Resolve(b)
    ensures a == b
  {
    ResolveRoundTrip(a);
    ResolveRoundTrip(b);
  }
}
