/** The parameter of the PPC reset driver: PCI device names separated by commas
    (mst_ppc_pci_reset.c, parse_pci_devices_string). */
module DeviceNames {

  datatype Option<T> = None | Some(value: T)

  /** `strsep(&list, ",")`: the next token, and what is left of the list. After the last token
      nothing is left, which is not the same as an empty rest. */
  function StrSep(list: string): (r: (string, Option<string>))
    ensures ',' !in r.0
    ensures r.1.None? ==> list == r.0
    ensures r.1.Some? ==> list == r.0 + "," + r.1.value && |r.1.value| < |list|
  {
    if list == "" then ("", None)
    else if list[0] == ',' then
      assert list == "" + "," + list[1..];
      ("", Some(list[1..]))
    else
      var (token, rest) := StrSep(list[1..]);
      ([list[0]] + token, rest)
  }

  function Names(list: string): seq<string>
    decreases |list|
  {
    var (token, rest) := StrSep(list);
    if rest.None? then [token] else [token] + Names(rest.value)
  }

  lemma NextName(list: string)
    ensures var (token, rest) := StrSep(list);
            Names(list) == [token] + (if rest.Some? then Names(rest.value) else [])
  {
  }

  function Join(names: seq<string>): string {
    if names == [] then ""
    else if |names| == 1 then names[0]
    else names[0] + "," + Join(names[1..])
  }

  function Commas(s: string): nat {
    if s == "" then 0 else (if s[0] == ',' then 1 else 0) + Commas(s[1..])
  }

  lemma {:induction false} CommasOfConcatenation(a: string, b: string)
    ensures Commas(a + b) == Commas(a) + Commas(b)
  {
    if a == "" {
      assert a + b == b;
    } else {
      assert (a + b)[1..] == a[1..] + b;
      CommasOfConcatenation(a[1..], b);
    }
  }

  lemma {:induction false} NoCommas(s: string)
    requires ',' !in s
    ensures Commas(s) == 0
  {
    if s != "" { NoCommas(s[1..]); }
  }

  /** Joining the parsed names gives the parameter back; there is one name more than commas. */
  lemma {:induction false} NamesRoundTrip(list: string)
    ensures Join(Names(list)) == list
    ensures |Names(list)| == Commas(list) + 1
    ensures forall name :: name in Names(list) ==> ',' !in name
    decreases |list|
  {
    var (token, rest) := StrSep(list);
    NoCommas(token);
    if rest.Some? {
      NamesRoundTrip(rest.value);
      CommasOfConcatenation(token + ",", rest.value);
      CommasOfConcatenation(token, ",");
      assert Names(list)[1..] == Names(rest.value);
    }
  }

  lemma {:induction false} StrSepAtComma(token: string, rest: string)
    requires ',' !in token
    ensures StrSep(token) == (token, None)
    ensures StrSep(token + "," + rest) == (token, Some(rest))
  {
    var list := token + "," + rest;
    if token == "" {
      assert list[1..] == rest;
    } else {
      assert list[1..] == token[1..] + "," + rest;
      StrSepAtComma(token[1..], rest);
    }
  }

  /** And parsing a joined list gives the names back, duplicates and empty names included. */
  lemma {:induction false} JoinRoundTrip(names: seq<string>)
    requires names != [] && forall name :: name in names ==> ',' !in name
    ensures Names(Join(names)) == names
    decreases |names|
  {
    if |names| == 1 {
      StrSepAtComma(names[0], "");
    } else {
      StrSepAtComma(names[0], Join(names[1..]));
      JoinRoundTrip(names[1..]);
    }
  }
}
