/** The query-string logic of the location service: `search()` parses the
    query of the current path into a dictionary, and `setSearch` builds a
    query string from one. `decodeURIComponent` and `encodeURIComponent`
    are kept abstract and passed in as functions. */
module SearchParams {

  import opened Options
  import opened Urls

  /** `decodeURIComponent`: `None` stands for the URIError it throws on a
      malformed percent-escape. */
  type Decoder = string -> Option<string>

  /** `encodeURIComponent`. */
  type Encoder = string -> string

  /** The `search` dictionary: a key maps to a string or to `undefined`. */
  type Dictionary = map<string, Option<string>>

  /** The dictionary built so far, and whether a decode has thrown. */
  datatype Parsed = Parsed(entries: Dictionary, failed: bool)

  /** One pass of the `forEach` body over the parameter `p`: `None` when a
      decode throws, which abandons the loop. A pair with an empty key adds
      nothing; `k` gives `undefined`, `k=` gives "" without decoding, and
      only the text between the first and second '=' is the value. */
  function AddParam(search: Dictionary, p: string, decode: Decoder): (r: Option<Dictionary>)
    ensures r.Some? ==> search.Keys <= r.value.Keys
    ensures Split(p, '=')[0] == "" ==> r == Some(search)
    ensures var pair := Split(p, '=');
      r.None? <==> pair[0] != "" && (decode(pair[0]).None? || (|pair| > 1 && pair[1] != "" && decode(pair[1]).None?))
  {
    var pair := Split(p, '=');
    if pair[0] == "" then Some(search)
    else match decode(pair[0])
      case None => None
      case Some(key) =>
        if |pair| == 1 then Some(search[key := None])
        else if pair[1] == "" then Some(search[key := Some("")])
        else match decode(pair[1])
          case None => None
          case Some(value) => Some(search[key := Some(value)])
  }

  /** The state after the `forEach` has run over `params`, left to right,
      stopping at the first decode that throws. */
  function ParseParams(params: seq<string>, decode: Decoder): Parsed
    decreases |params|
  {
    if params == [] then Parsed(map[], false)
    else
      var before := ParseParams(params[..|params| - 1], decode);
      if before.failed then before
      else match AddParam(before.entries, params[|params| - 1], decode)
        case None => Parsed(before.entries, true)
        case Some(search) => Parsed(search, false)
  }

  /** The parameters `search()` walks: the text after the first '?' split
      at '&', and none at all when the path has no '?'. */
  function QueryParams(path: string): (params: seq<string>)
    ensures '?' !in path <==> params == []
  {
    var q := IndexOf(path, '?');
    if q > -1 then Split(path[q + 1..], '&') else []
  }

  /** What `search()` returns for the path `location.path()` gives. */
  function SearchOf(path: string, decode: Decoder): Dictionary {
    ParseParams(QueryParams(path), decode).entries
  }

  /** Once a decode has thrown, later parameters change nothing. */
  lemma {:induction false} FailureIsFinal(params: seq<string>, n: nat, decode: Decoder)
    requires n <= |params|
    requires ParseParams(params[..n], decode).failed
    ensures ParseParams(params, decode) == ParseParams(params[..n], decode)
    decreases |params| - n
  {
    if n < |params| {
      assert params[..n + 1][..n] == params[..n];
      FailureIsFinal(params, n + 1, decode);
    } else {
      assert params[..n] == params;
    }
  }

  /** One more parameter runs the `forEach` body once more. */
  lemma {:induction false} ParseOneMore(params: seq<string>, i: nat, decode: Decoder)
    requires i < |params|
    requires !ParseParams(params[..i], decode).failed
    ensures ParseParams(params[..i + 1], decode)
      == match AddParam(ParseParams(params[..i], decode).entries, params[i], decode)
         case None => Parsed(ParseParams(params[..i], decode).entries, true)
         case Some(search) => Parsed(search, false)
  {
    assert params[..i + 1][..i] == params[..i];
  }

  /** `search()`: fills the dictionary in place, one parameter at a time;
      a decode that throws ends the loop, and the exception is swallowed,
      so the entries added before it are returned. */
  method Search(path: string, decode: Decoder) returns (search: Dictionary)
    ensures search == SearchOf(path, decode)
  {
    search := map[];
    var q := IndexOf(path, '?');
    if q > -1 {
      var params := Split(path[q + 1..], '&');
      assert QueryParams(path) == params;
      assert params[..0] == [];
      var i := 0;
      while i < |params|
        invariant 0 <= i <= |params|
        invariant !ParseParams(params[..i], decode).failed
        invariant ParseParams(params[..i], decode).entries == search
      {
        var next := ApplyParam(search, params[i], decode);
        if next.None? {
          DecodeThrows(params, i, decode);
          return;
        }
        ParseOneMore(params, i, decode);
        search := next.value;
        i := i + 1;
      }
      assert params[..i] == params;
    }
  }

  /** The `forEach` callback of `search()` applied to one parameter `p`:
      `None` when one of its decodes throws, otherwise the updated entries. */
  method ApplyParam(search: Dictionary, p: string, decode: Decoder) returns (next: Option<Dictionary>)
    ensures next == AddParam(search, p, decode)
    ensures next.Some? ==> search.Keys <= next.value.Keys
  {
    var pair := Split(p, '=');
    if pair[0] == "" {
      return Some(search);
    }
    var key := decode(pair[0]);
    if key.None? {
      return None;
    }
    if |pair| == 1 {
      return Some(search[key.value := None]);
    } else if pair[1] == "" {
      return Some(search[key.value := Some("")]);
    }
    var value := decode(pair[1]);
    if value.None? {
      return None;
    }
    return Some(search[key.value := value]);
  }

  /** Loop step of `Search`: a callback that throws ends the parse with what came before. */
  lemma {:induction false} DecodeThrows(params: seq<string>, i: nat, decode: Decoder)
    requires i < |params|
    requires !ParseParams(params[..i], decode).failed
    requires AddParam(ParseParams(params[..i], decode).entries, params[i], decode).None?
    ensures ParseParams(params, decode).entries == ParseParams(params[..i], decode).entries
  {
    ParseOneMore(params, i, decode);
    FailureIsFinal(params, i + 1, decode);
  }

  // ---------------------------------------------------------------------
  // Properties of search()
  // ---------------------------------------------------------------------

  /** A path without '?' has an empty dictionary. */
  lemma {:induction false} SearchWithoutQueryIsEmpty(path: string, decode: Decoder)
    requires '?' !in path
    ensures SearchOf(path, decode) == map[]
  {
  }

  /** A parameter whose key part is empty (`=v`, or an empty segment from
      `&&`) adds nothing. */
  lemma {:induction false} EmptyKeyIsSkipped(params: seq<string>, p: string, decode: Decoder)
    requires Split(p, '=')[0] == ""
    ensures ParseParams(params + [p], decode) == ParseParams(params, decode)
  {
  }

  /** A parameter with no '=' maps its decoded key to `undefined`. */
  lemma {:induction false} KeyWithoutValue(search: Dictionary, k: string, decode: Decoder)
    requires k != "" && '=' !in k && decode(k).Some?
    ensures AddParam(search, k, decode) == Some(search[decode(k).value := None])
  {
  }

  /** `k=` maps the decoded key to the empty string. */
  lemma {:induction false} KeyWithEmptyValue(search: Dictionary, k: string, decode: Decoder)
    requires k != "" && '=' !in k && decode(k).Some?
    ensures AddParam(search, k + "=", decode) == Some(search[decode(k).value := Some("")])
  {
    assert k + "=" == k + ['='] + "";
    SplitAfter(k, '=', "");
  }

  /** `k=v=rest` keeps only `v`: the text after a second '=' is dropped. */
  lemma {:induction false} ValueEndsAtSecondEquals(search: Dictionary, k: string, v: string, rest: string, decode: Decoder)
    requires k != "" && '=' !in k && decode(k).Some?
    requires v != "" && '=' !in v && decode(v).Some?
    ensures AddParam(search, k + "=" + v + "=" + rest, decode) == Some(search[decode(k).value := decode(v)])
  {
    assert k + "=" + v + "=" + rest == k + ['='] + v + ['='] + rest;
    SplitTwoPieces(k, v, '=', rest);
  }

  /** What a parameter with a non-empty key does to any dictionary: it
      sets that key, to the same value whatever was there before. */
  lemma {:induction false} AddParamSetsKey(search: Dictionary, p: string, decode: Decoder)
    requires Split(p, '=')[0] != "" && decode(Split(p, '=')[0]).Some?
    requires AddParam(search, p, decode).Some?
    ensures var key := decode(Split(p, '=')[0]).value;
      && AddParam(map[], p, decode).Some?
      && key in AddParam(map[], p, decode).value
      && AddParam(search, p, decode).value == search[key := AddParam(map[], p, decode).value[key]]
  {
    var pair := Split(p, '=');
    if |pair| > 1 && pair[1] != "" {
      assert decode(pair[1]).Some?;
    }
  }

  /** A parameter overrides whatever an earlier one set for the same key:
      after `p`, the key of `p` holds the value `p` alone would give it. */
  lemma {:induction false} LaterValueWins(params: seq<string>, p: string, decode: Decoder)
    requires Split(p, '=')[0] != "" && decode(Split(p, '=')[0]).Some?
    requires !ParseParams(params + [p], decode).failed
    ensures var key := decode(Split(p, '=')[0]).value;
      && key in ParseParams([p], decode).entries
      && ParseParams(params + [p], decode).entries
         == ParseParams(params, decode).entries[key := ParseParams([p], decode).entries[key]]
  {
    var all := params + [p];
    assert all[..|params|] == params;
    assert all[..|params| + 1] == all;
    var before := ParseParams(params, decode);
    assert !before.failed;
    ParseOneMore(all, |params|, decode);
    assert AddParam(before.entries, p, decode).Some?;
    AddParamSetsKey(before.entries, p, decode);
    assert [p][..0] == [];
    ParseOneMore([p], 0, decode);
    assert [p][..1] == [p];
  }

  /** A decode that throws keeps the entries added before it, and nothing
      after it is added. */
  lemma {:induction false} FailureKeepsEarlierEntries(params: seq<string>, p: string, rest: seq<string>, decode: Decoder)
    requires !ParseParams(params, decode).failed
    requires AddParam(ParseParams(params, decode).entries, p, decode) == None
    ensures ParseParams(params + [p] + rest, decode).entries == ParseParams(params, decode).entries
  {
    var all := params + [p] + rest;
    assert all[..|params| + 1] == params + [p];
    assert (params + [p])[..|params|] == params;
    FailureIsFinal(all, |params| + 1, decode);
  }

  /** `search()` on "/docs?x=1&y=2", with a decoder that leaves plain text
      alone. */
  lemma {:induction false} SearchExample(decode: Decoder)
    requires forall s :: decode(s) == Some(s)
    ensures SearchOf("/docs?x=1&y=2", decode) == map["x" := Some("1"), "y" := Some("2")]
  {
    ExampleQuery();
    ExampleParams(decode);
  }

  lemma ExampleQuery()
    ensures IndexOf("/docs?x=1&y=2", '?') == 5
    ensures Split("/docs?x=1&y=2"[6..], '&') == ["x=1", "y=2"]
  {
    var path := "/docs?x=1&y=2";
    assert path == "/docs" + ['?'] + "x=1&y=2";
    IndexOfAfter("/docs", '?', "x=1&y=2");
    assert path[6..] == "x=1&y=2";
    ExampleSplit();
  }

  lemma ExampleSplit()
    ensures Split("x=1&y=2", '&') == ["x=1", "y=2"]
  {
    assert "x=1&y=2" == "x=1" + ['&'] + "y=2";
    SplitAfter("x=1", '&', "y=2");
    assert IndexOf("y=2", '&') == -1;
  }

  lemma {:induction false} ExampleParams(decode: Decoder)
    requires forall s :: decode(s) == Some(s)
    ensures ParseParams(["x=1", "y=2"], decode) == Parsed(map["x" := Some("1"), "y" := Some("2")], false)
  {
    ExampleFirstParam(decode);
    ExampleParam(map["x" := Some("1")], "y", "2", decode);
    assert "y" + "=" + "2" == "y=2";
    ParseAppend(["x=1"], "y=2", decode);
    assert ["x=1"] + ["y=2"] == ["x=1", "y=2"];
  }

  lemma {:induction false} ExampleFirstParam(decode: Decoder)
    requires forall s :: decode(s) == Some(s)
    ensures ParseParams(["x=1"], decode) == Parsed(map["x" := Some("1")], false)
  {
    ExampleParam(map[], "x", "1", decode);
    assert "x" + "=" + "1" == "x=1";
    ParseAppend([], "x=1", decode);
    assert [] + ["x=1"] == ["x=1"];
  }

  /** A parameter whose decodes succeed extends the parse by its entry. */
  lemma {:induction false} ParseAppend(params: seq<string>, p: string, decode: Decoder)
    requires !ParseParams(params, decode).failed
    requires AddParam(ParseParams(params, decode).entries, p, decode).Some?
    ensures ParseParams(params + [p], decode)
      == Parsed(AddParam(ParseParams(params, decode).entries, p, decode).value, false)
  {
    assert (params + [p])[..|params|] == params;
  }

  lemma {:induction false} ExampleParam(search: Dictionary, k: string, v: string, decode: Decoder)
    requires forall s :: decode(s) == Some(s)
    requires k != "" && v != "" && '=' !in k && '=' !in v
    ensures AddParam(search, k + "=" + v, decode) == Some(search[k := Some(v)])
  {
    ValueWithoutSecondEquals(k, v);
    assert decode(k) == Some(k) && decode(v) == Some(v);
  }

  /** Splitting `k=v` at '=' when neither part holds one. */
  lemma {:induction false} ValueWithoutSecondEquals(k: string, v: string)
    requires '=' !in k && '=' !in v
    ensures Split(k + "=" + v, '=') == [k, v]
  {
    assert k + "=" + v == k + ['='] + v;
    SplitAfter(k, '=', v);
    assert IndexOf(v, '=') == -1;
  }

  // ---------------------------------------------------------------------
  // setSearch: the query string built by its reduce
  // ---------------------------------------------------------------------

  /** The reduce of `setSearch` over `Object.keys(params)`, in key order;
      `None` stands for an `undefined` value, which is skipped. The
      accumulator is non-empty once a pair is in, so '?' goes before the
      first pair and '&' before each later one. */
  function QueryString(params: seq<(string, Option<string>)>, encode: Encoder): (query: string)
    ensures query == "" || query[0] == '?'
    decreases |params|
  {
    if params == [] then ""
    else
      var acc := QueryString(params[..|params| - 1], encode);
      var (key, value) := params[|params| - 1];
      if value.None? then acc
      else acc + (if acc != "" then "&" else "?") + encode(key) + "=" + encode(value.value)
  }

  /** Every pair's value is `undefined`, so `setSearch` writes no item for it. */
  predicate AllUndefined(params: seq<(string, Option<string>)>)
  {
    forall k :: 0 <= k < |params| ==> params[k].1.None?
  }

  /** The `key=value` items of the pairs whose value is defined, in order. */
  function Items(params: seq<(string, Option<string>)>, encode: Encoder): (items: seq<string>)
    ensures |items| <= |params|
    ensures items == [] <==> AllUndefined(params)
    decreases |params|
  {
    if params == [] then []
    else
      var before := Items(params[..|params| - 1], encode);
      var (key, value) := params[|params| - 1];
      if value.None? then before else before + [encode(key) + "=" + encode(value.value)]
  }

  /** The query string is "" when every value is undefined, and otherwise
      '?' followed by the defined items joined with '&'. */
  lemma {:induction false} QueryStringIsJoinedItems(params: seq<(string, Option<string>)>, encode: Encoder)
    ensures QueryString(params, encode)
      == if Items(params, encode) == [] then "" else "?" + Join(Items(params, encode), '&')
    decreases |params|
  {
    if params != [] {
      var init := params[..|params| - 1];
      QueryStringIsJoinedItems(init, encode);
      var (key, value) := params[|params| - 1];
      if value.Some? {
        JoinedItemsStep(QueryString(init, encode), Items(init, encode), encode(key) + "=" + encode(value.value));
      }
    }
  }

  /** One step of the reduce: appending an item to the query string of some
      items gives the query string of those items followed by it. */
  lemma {:induction false} JoinedItemsStep(acc: string, before: seq<string>, item: string)
    requires acc == if before == [] then "" else "?" + Join(before, '&')
    ensures acc + (if acc != "" then "&" else "?") + item == "?" + Join(before + [item], '&')
  {
    if before == [] {
      assert before + [item] == [item];
    } else {
      JoinSnoc(before, item, '&');
    }
  }

  /** Appending a part to a non-empty join appends the separator and it. */
  lemma {:induction false} JoinSnoc(parts: seq<string>, last: string, sep: char)
    requires parts != []
    ensures Join(parts + [last], sep) == Join(parts, sep) + [sep] + last
    decreases |parts|
  {
    if |parts| == 1 {
      assert (parts + [last])[1..] == [last];
    } else {
      assert (parts + [last])[1..] == parts[1..] + [last];
      JoinSnoc(parts[1..], last, sep);
    }
  }

  /** No value defined: the query string is empty. */
  lemma {:induction false} AllUndefinedGivesEmpty(params: seq<(string, Option<string>)>, encode: Encoder)
    requires AllUndefined(params)
    ensures QueryString(params, encode) == ""
    decreases |params|
  {
    if params != [] {
      AllUndefinedGivesEmpty(params[..|params| - 1], encode);
    }
  }

  /** `setSearch` on `{a: "1", b: undefined}` with an encoder that leaves
      plain text alone. */
  lemma {:induction false} QueryStringExample(encode: Encoder)
    requires forall s :: encode(s) == s
    ensures QueryString([("a", Some("1")), ("b", None)], encode) == "?a=1"
  {
  }

  // ---------------------------------------------------------------------
  // Round trip: search() reads back what setSearch wrote
  // ---------------------------------------------------------------------

  /** The dictionary a set of pairs describes: keys with defined values,
      a later pair overriding an earlier one with the same key. */
  function DefinedEntries(params: seq<(string, Option<string>)>): Dictionary
    decreases |params|
  {
    if params == [] then map[]
    else
      var before := DefinedEntries(params[..|params| - 1]);
      var (key, value) := params[|params| - 1];
      if value.None? then before else before[key := value]
  }

  /** What the round trip needs of the two URI functions: decoding undoes
      encoding, an encoding is empty only for the empty string, and it holds
      no '&' or '=' (encodeURIComponent escapes both). */
  ghost predicate UriCodecs(encode: Encoder, decode: Decoder) {
    forall s :: decode(encode(s)) == Some(s) && (encode(s) == "" <==> s == "")
      && '&' !in encode(s) && '=' !in encode(s)
  }

  /** Parsing the items `setSearch` writes gives the defined entries, except
      one under the empty key: it is written as `=v`, whose key part is
      empty, so `search()` skips it. No decode fails. */
  lemma {:induction false} ParseItems(params: seq<(string, Option<string>)>, encode: Encoder, decode: Decoder)
    requires UriCodecs(encode, decode)
    ensures ParseParams(Items(params, encode), decode) == Parsed(DefinedEntries(params) - {""}, false)
    decreases |params|
  {
    if params != [] {
      var init := params[..|params| - 1];
      ParseItems(init, encode, decode);
      var (key, value) := params[|params| - 1];
      if value.Some? {
        var item := encode(key) + "=" + encode(value.value);
        var before := DefinedEntries(init);
        AddItem(before - {""}, key, value.value, encode, decode);
        ParseAppend(Items(init, encode), item, decode);
        RemoveAfterUpdate(before, key, value, "");
      }
    }
  }

  /** One item `encode(key)=encode(value)` sets `key` to `value`, or changes
      nothing when `key` is empty. */
  lemma {:induction false} AddItem(search: Dictionary, key: string, value: string, encode: Encoder, decode: Decoder)
    requires UriCodecs(encode, decode)
    ensures AddParam(search, encode(key) + "=" + encode(value), decode)
      == Some(if key == "" then search else search[key := Some(value)])
  {
    ValueWithoutSecondEquals(encode(key), encode(value));
    assert decode(encode(key)) == Some(key) && decode(encode(value)) == Some(value);
  }

  lemma {:induction false} RemoveAfterUpdate<K, V>(m: map<K, V>, k: K, v: V, x: K)
    ensures m[k := v] - {x} == if k == x then m - {x} else (m - {x})[k := v]
  {
  }

  /** After `setSearch(label, params)` has put `pathname + query` in the
      address, `search()` on that path gives back exactly the keys with
      defined values, each with its value, the later pair winning; only a
      pair with the empty key does not come back. */
  lemma {:induction false} SearchReadsBackSetSearch(pathname: string, params: seq<(string, Option<string>)>, encode: Encoder, decode: Decoder)
    requires UriCodecs(encode, decode)
    requires '?' !in pathname
    ensures SearchOf(pathname + QueryString(params, encode), decode) == DefinedEntries(params) - {""}
  {
    QueryStringIsJoinedItems(params, encode);
    ParseItems(params, encode, decode);
    var items := Items(params, encode);
    if items == [] {
      assert ParseParams(items, decode).entries == map[];
      assert pathname + QueryString(params, encode) == pathname;
    } else {
      var joined := Join(items, '&');
      var path := pathname + QueryString(params, encode);
      assert path == pathname + ['?'] + joined;
      IndexOfAfter(pathname, '?', joined);
      assert path[|pathname| + 1..] == joined;
      forall k | 0 <= k < |items| ensures '&' !in items[k] {
        ItemHasNoAmpersand(params, encode, decode, k);
      }
      SplitJoin(items, '&');
    }
  }

  /** When every defined pair has a non-empty key, the round trip is exact. */
  lemma {:induction false} DefinedKeysReadBack(pathname: string, params: seq<(string, Option<string>)>, encode: Encoder, decode: Decoder)
    requires UriCodecs(encode, decode)
    requires '?' !in pathname
    requires forall k :: 0 <= k < |params| && params[k].1.Some? ==> params[k].0 != ""
    ensures SearchOf(pathname + QueryString(params, encode), decode) == DefinedEntries(params)
  {
    SearchReadsBackSetSearch(pathname, params, encode, decode);
    EmptyKeyNotDefined(params);
    assert DefinedEntries(params) - {""} == DefinedEntries(params);
  }

  lemma {:induction false} EmptyKeyNotDefined(params: seq<(string, Option<string>)>)
    requires forall k :: 0 <= k < |params| && params[k].1.Some? ==> params[k].0 != ""
    ensures "" !in DefinedEntries(params)
    decreases |params|
  {
    if params != [] {
      EmptyKeyNotDefined(params[..|params| - 1]);
    }
  }

  /** A defined pair with the empty key is written but not read back:
      `setSearch` writes `?=v`, and `search()` skips the empty key. */
  lemma {:induction false} EmptyKeyIsLost(pathname: string, v: string, encode: Encoder, decode: Decoder)
    requires UriCodecs(encode, decode)
    requires '?' !in pathname
    ensures "" in DefinedEntries([("", Some(v))])
    ensures SearchOf(pathname + QueryString([("", Some(v))], encode), decode) == map[]
  {
    SearchReadsBackSetSearch(pathname, [("", Some(v))], encode, decode);
    assert DefinedEntries([("", Some(v))]) == map["" := Some(v)];
  }

  lemma {:induction false} ItemHasNoAmpersand(params: seq<(string, Option<string>)>, encode: Encoder, decode: Decoder, k: nat)
    requires UriCodecs(encode, decode)
    requires k < |Items(params, encode)|
    ensures '&' !in Items(params, encode)[k]
    decreases |params|
  {
    var init := params[..|params| - 1];
    var (key, value) := params[|params| - 1];
    if k < |Items(init, encode)| {
      ItemHasNoAmpersand(init, encode, decode, k);
    } else {
      var item := encode(key) + "=" + encode(value.value);
      assert '&' !in encode(key) && '&' !in encode(value.value);
      assert item == encode(key) + ['='] + encode(value.value);
    }
  }
}
