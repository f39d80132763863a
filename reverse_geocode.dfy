/**
 * What the scripts keep of a reverse-geocoding reply: the address fields of
 * the JSON body, each taken from the first non-empty key of a fixed chain.
 * The HTTP request itself is not modelled; the reply arrives as a value.
 */
module ReverseGeocode {
  import opened Wrappers
  import opened Tables

  /** The `address` object of a reply, with string values. */
  type Address = map<string, string>

  /** The value under the `address` key: an object, or anything else (`null`, a list, a string...). */
  datatype AddressValue = Fields(fields: Address) | NotAnObject

  /**
   * A decoded JSON body: an object, with or without an `address` key, or some
   * other value, which Python treats as true or false.
   */
  datatype Json = Object(address: Option<AddressValue>) | Scalar(truthy: bool)

  /** The outcome of one request: a body, a non-2xx status, or any other failure. */
  datatype Reply = Response(body: Json) | HttpError | OtherError

  /** `addr.get(k1) or addr.get(k2) or ... or ""` */
  function FirstNonEmpty(a: Address, keys: seq<string>): string
  {
    if keys == [] then ""
    else if Cell(a, keys[0]) != "" then Cell(a, keys[0])
    else FirstNonEmpty(a, keys[1..])
  }

  const CepKeys: seq<string> := ["postcode", "postalcode"]
  const BairroKeys: seq<string> := ["suburb", "neighbourhood", "city_district"]
  const CidadeKeys: seq<string> := ["city", "town", "municipality", "village", "county"]
  const UfKeys: seq<string> := ["state"]
  const LogradouroKeys: seq<string> := ["road"]

  /** The five output columns, in the order of the returned dictionary. */
  const FieldNames: seq<string> := ["CEP", "Bairro", "Cidade", "UF", "Logradouro"]

  /** The key chain each output column is read from. */
  function Chain(name: string): seq<string>
  {
    if name == "CEP" then CepKeys
    else if name == "Bairro" then BairroKeys
    else if name == "Cidade" then CidadeKeys
    else if name == "UF" then UfKeys
    else LogradouroKeys
  }

  /** The dictionary `reverse_geocode` returns for an address object. */
  function FieldsOf(a: Address): (info: map<string, string>)
    ensures info.Keys == {"CEP", "Bairro", "Cidade", "UF", "Logradouro"}
  {
    map name | name in FieldNames :: FirstNonEmpty(a, Chain(name))
  }

  /**
   * `reverse_geocode` after `raise_for_status`: a non-object body counts as
   * an empty address; an `address` value that is not an object makes `.get`
   * raise, shown as `None`.
   */
  function AddressFields(js: Json): (r: Option<map<string, string>>)
    ensures r.None? <==> js == Object(Some(NotAnObject))
    ensures r.Some? ==> r.value.Keys == {"CEP", "Bairro", "Cidade", "UF", "Logradouro"}
  {
    match js
    case Scalar(_) => Some(FieldsOf(map[]))
    case Object(None) => Some(FieldsOf(map[]))
    case Object(Some(Fields(a))) => Some(FieldsOf(a))
    case Object(Some(NotAnObject)) => None
  }

  /**
   * `rev` after `raise_for_status`: `(js or {}).get("address", {})` followed by
   * the postcode chain. A false body counts as `{}`; a true non-object body
   * or a non-object address makes `.get` raise, shown as `None`.
   */
  function Postcode(js: Json): (r: Option<string>)
    ensures r.None? <==> js == Scalar(true) || js == Object(Some(NotAnObject))
    ensures js == Scalar(false) || js == Object(None) ==> r == Some("")
  {
    match js
    case Scalar(truthy) => if truthy then None else Some("")
    case Object(None) => Some("")
    case Object(Some(Fields(a))) => Some(FirstNonEmpty(a, CepKeys))
    case Object(Some(NotAnObject)) => None
  }

  /** The five fields of a reply, or `None` when the lookup raised. */
  function LookupFields(reply: Reply): (r: Option<map<string, string>>)
    ensures r.None? <==> !reply.Response? || reply.body == Object(Some(NotAnObject))
    ensures r.Some? ==> r.value.Keys == {"CEP", "Bairro", "Cidade", "UF", "Logradouro"}
  {
    if reply.Response? then AddressFields(reply.body) else None
  }

  /** The postcode of a reply, or `None` when the lookup raised. */
  function LookupPostcode(reply: Reply): (r: Option<string>)
    ensures r.None? <==> !reply.Response? || reply.body == Scalar(true) || reply.body == Object(Some(NotAnObject))
  {
    if reply.Response? then Postcode(reply.body) else None
  }

  /**
   * The geocoding service as the scripts use it: every request for a pair of
   * coordinates gets the reply `answer` gives for that pair, and the requests
   * made so far are recorded, in order, in `calls`.
   */
  class Service {
    const answer: (real, real) -> Reply
    ghost var calls: seq<(real, real)>

    constructor (answer: (real, real) -> Reply)
      ensures this.answer == answer && calls == []
    {
      this.answer := answer;
      calls := [];
    }

    /** One request: `reverse_geocode(lat, lon, ua)` / `rev(lat, lon, ua)` up to the decoded reply. */
    method Lookup(lat: real, lon: real) returns (r: Reply)
      modifies this
      ensures r == answer(lat, lon)
      ensures calls == old(calls) + [(lat, lon)]
    {
      r := answer(lat, lon);
      calls := calls + [(lat, lon)];
    }
  }

  // ---------------------------------------------------------------------------
  // Lemmas

  /** The chain yields the value of its first key with a non-empty value ... */
  lemma {:induction false} FirstNonEmptyPicksFirst(a: Address, keys: seq<string>, i: nat)
    requires i < |keys| && Cell(a, keys[i]) != ""
    requires forall j :: 0 <= j < i ==> Cell(a, keys[j]) == ""
    ensures FirstNonEmpty(a, keys) == Cell(a, keys[i])
  {
    if i > 0 {
      FirstNonEmptyPicksFirst(a, keys[1..], i - 1);
    }
  }

  /** ... and `""` exactly when every key of the chain is missing or empty. */
  lemma {:induction false} FirstNonEmptyBlank(a: Address, keys: seq<string>)
    ensures FirstNonEmpty(a, keys) == "" <==> forall j :: 0 <= j < |keys| ==> Cell(a, keys[j]) == ""
  {
    if keys != [] {
      FirstNonEmptyBlank(a, keys[1..]);
      if Cell(a, keys[0]) == "" {
        forall j | 0 < j < |keys| ensures Cell(a, keys[j]) == Cell(a, keys[1..][j - 1]) {
        }
      }
    }
  }

  /** A non-empty result is the value of some key of the chain, with every earlier key empty. */
  lemma {:induction false} FirstNonEmptySource(a: Address, keys: seq<string>) returns (i: nat)
    requires FirstNonEmpty(a, keys) != ""
    ensures i < |keys| && FirstNonEmpty(a, keys) == Cell(a, keys[i]) == a[keys[i]]
    ensures forall j :: 0 <= j < i ==> Cell(a, keys[j]) == ""
  {
    if Cell(a, keys[0]) != "" {
      i := 0;
    } else {
      var k := FirstNonEmptySource(a, keys[1..]);
      i := k + 1;
      forall j | 0 < j < i ensures Cell(a, keys[j]) == "" {
        assert keys[j] == keys[1..][j - 1];
      }
    }
  }

  /** An empty address gives five empty fields. */
  lemma {:induction false} EmptyAddressBlank(keys: seq<string>)
    ensures FirstNonEmpty(map[], keys) == ""
  {
    if keys != [] {
      EmptyAddressBlank(keys[1..]);
    }
  }

  /** A body that is not an object yields five empty strings, never an error. */
  lemma NonObjectBodyBlank(js: Json)
    requires js.Scalar? || js.address.None?
    ensures AddressFields(js).Some?
    ensures forall name :: name in FieldNames ==> AddressFields(js).value[name] == ""
  {
    forall name | name in FieldNames ensures FirstNonEmpty(map[], Chain(name)) == "" {
      EmptyAddressBlank(Chain(name));
    }
  }

  /**
   * The two ways the scripts read a postcode agree on what gets written: the
   * postcode-only reading gives a non-empty `p` exactly when the five-field
   * reading gives a non-empty `CEP`, and then both give `p`.
   */
  lemma PostcodeAgrees(js: Json)
    ensures var p := Postcode(js);
            var info := AddressFields(js);
            && (p.Some? && p.value != "" <==> info.Some? && info.value["CEP"] != "")
            && (p.Some? && p.value != "" ==> p.value == info.value["CEP"])
  {
    EmptyAddressBlank(CepKeys);
  }
}
