/**
 * The parts of the Solr client that shape requests and decode responses
 * without the network: Solr's flat "named list" responses turned into dicts
 * (list2dict, nested_list2dict), the batched total-term-frequency request
 * with its ttf(field,'term') column labels (totaltermfreq), and the message
 * scraped out of an HTML error page (_extract_error). Every HTTP exchange is
 * a function parameter standing for the server.
 */
module SolrClient {
  import opened Wrappers
  import opened Strings
  import opened Dicts

  // ---------------------------------------------------------------------
  // Named lists: list2dict and nested_list2dict
  // ---------------------------------------------------------------------

  /** A JSON value in a Solr response: string, number or list. */
  datatype Value = Str(s: string) | Int(n: int) | Float(x: real) | Arr(items: seq<Value>)

  /** zip(keys, values): each even-index element with the element after it; an odd trailing key has no partner. */
  function Pairs(data: seq<Value>): (r: seq<(Value, Value)>)
    ensures |r| == |data| / 2
    ensures forall i :: 0 <= i < |r| ==> r[i] == (data[2 * i], data[2 * i + 1])
  {
    seq(|data| / 2, i requires 0 <= i < |data| / 2 => (data[2 * i], data[2 * i + 1]))
  }

  /** The first keys that make list2dict return a list of dicts (term positions and offsets). */
  predicate IsPositionKey(k: Value) {
    k == Str("start") || k == Str("position")
  }

  /** dict() over pairs raises TypeError when some key is a list, which is unhashable. */
  predicate Unhashable(ps: seq<(Value, Value)>) {
    exists i :: 0 <= i < |ps| && ps[i].0.Arr?
  }

  /** What list2dict returns: a dict, or for positions and offsets a list of dicts. */
  datatype Decoded = AsDict(d: Dict<Value, Value>) | AsList(ds: seq<Dict<Value, Value>>)

  /** The end of the chunk kv_tuples[i:i+2]. */
  function ChunkEnd(i: nat, n: nat): nat {
    if i + 2 <= n then i + 2 else n
  }

  /** dict(kv_tuples[i:i+2]) for i in range(0, len(kv_tuples), 2). */
  function PositionDicts(ps: seq<(Value, Value)>): (r: seq<Dict<Value, Value>>)
    ensures |r| == (|ps| + 1) / 2
  {
    seq((|ps| + 1) / 2, j requires 0 <= j < (|ps| + 1) / 2 => FromPairs(ps[2 * j..ChunkEnd(2 * j, |ps|)]))
  }

  /**
   * list2dict: keys[0] raises IndexError on an empty list; a list key raises
   * TypeError; a first key 'start' or 'position' gives the list of dicts of
   * consecutive pairs of pairs; anything else the dict of all pairs.
   */
  function Decode(data: seq<Value>): (r: Result<Decoded>)
    ensures data == [] ==> r == Failure(IndexError)
    ensures r.Failure? <==> data == [] || Unhashable(Pairs(data))
    ensures r.Failure? && data != [] ==> r.error == TypeError
    ensures r.Success? ==> (r.value.AsList? <==> IsPositionKey(data[0]))
  {
    if data == [] then Failure(IndexError)
    else if Unhashable(Pairs(data)) then Failure(TypeError)
    else if IsPositionKey(data[0]) then Success(AsList(PositionDicts(Pairs(data))))
    else Success(AsDict(FromPairs(Pairs(data))))
  }

  /**
   * The dict case: the keys are exactly the even-index elements that have a
   * partner (an odd trailing key is dropped), and each key maps to the
   * partner of its last occurrence.
   */
  lemma DecodeDict(data: seq<Value>, d: Dict<Value, Value>)
    requires Decode(data) == Success(AsDict(d))
    ensures data != [] && !IsPositionKey(data[0])
    ensures forall k :: k in d.vals <==> exists i :: 0 <= i < |data| / 2 && data[2 * i] == k
    ensures forall k :: k in d.vals ==>
              exists i :: 0 <= i < |data| / 2 && data[2 * i] == k && d.vals[k] == data[2 * i + 1] &&
                forall j :: i < j < |data| / 2 ==> data[2 * j] != k
  {
    var ps := Pairs(data);
    forall k ensures k in d.vals <==> exists i :: 0 <= i < |data| / 2 && data[2 * i] == k {
      FromPairsMembers(ps, k);
      PairsFirsts(data, k);
    }
    forall k | k in d.vals
      ensures exists i :: 0 <= i < |data| / 2 && data[2 * i] == k && d.vals[k] == data[2 * i + 1] &&
                forall j :: i < j < |data| / 2 ==> data[2 * j] != k
    {
      PairsLast(data, k, d.vals[k]);
    }
  }

  /** Some pair has key k exactly when some even-index element with a partner is k. */
  lemma PairsFirsts(data: seq<Value>, k: Value)
    ensures (exists i :: 0 <= i < |Pairs(data)| && Pairs(data)[i].0 == k) <==>
            exists i :: 0 <= i < |data| / 2 && data[2 * i] == k
  {
    var ps := Pairs(data);
    if exists i :: 0 <= i < |data| / 2 && data[2 * i] == k {
      var i :| 0 <= i < |data| / 2 && data[2 * i] == k;
      assert ps[i].0 == k;
    }
  }

  /** The last pair with key k, in terms of the list's elements. */
  lemma PairsLast(data: seq<Value>, k: Value, v: Value)
    requires IsLastValue(Pairs(data), k, v)
    ensures exists i :: 0 <= i < |data| / 2 && data[2 * i] == k && v == data[2 * i + 1] &&
              forall j :: i < j < |data| / 2 ==> data[2 * j] != k
  {
    var ps := Pairs(data);
    var i :| 0 <= i < |ps| && ps[i] == (k, v) && forall j :: i < j < |ps| ==> ps[j].0 != k;
    assert data[2 * i] == k && v == data[2 * i + 1];
    assert forall j :: i < j < |data| / 2 ==> data[2 * j] == ps[j].0;
  }

  /**
   * The positions case: one dict per two consecutive pairs (the last may
   * have one), holding those pairs, the second winning if their keys agree.
   */
  lemma DecodePositions(data: seq<Value>, ds: seq<Dict<Value, Value>>)
    requires Decode(data) == Success(AsList(ds))
    ensures data != [] && IsPositionKey(data[0])
    ensures |ds| == (|data| / 2 + 1) / 2
    ensures forall j :: 0 <= j < |ds| && 4 * j + 3 < |data| ==>
              ds[j].vals == map[data[4 * j] := data[4 * j + 1]][data[4 * j + 2] := data[4 * j + 3]]
    ensures forall j :: 0 <= j < |ds| && 4 * j + 3 >= |data| ==> ds[j].vals == map[data[4 * j] := data[4 * j + 1]]
  {
    forall j | 0 <= j < |ds|
      ensures 4 * j + 3 < |data| ==> ds[j].vals == map[data[4 * j] := data[4 * j + 1]][data[4 * j + 2] := data[4 * j + 3]]
      ensures 4 * j + 3 >= |data| ==> ds[j].vals == map[data[4 * j] := data[4 * j + 1]]
    {
      PositionChunk(data, j);
    }
  }

  /** The j-th dict of the positions case. */
  lemma PositionChunk(data: seq<Value>, j: nat)
    requires j < (|data| / 2 + 1) / 2
    ensures 4 * j + 3 < |data| ==>
              PositionDicts(Pairs(data))[j].vals == map[data[4 * j] := data[4 * j + 1]][data[4 * j + 2] := data[4 * j + 3]]
    ensures 4 * j + 3 >= |data| ==> PositionDicts(Pairs(data))[j].vals == map[data[4 * j] := data[4 * j + 1]]
  {
    var ps := Pairs(data);
    var chunk := ps[2 * j..ChunkEnd(2 * j, |ps|)];
    assert PositionDicts(ps)[j] == FromPairs(chunk);
    PairsChunk(data, j);
    if 4 * j + 3 < |data| {
      FromPairsTwo(chunk);
    } else {
      FromPairsOne(chunk);
    }
  }

  /** The j-th chunk of two pairs: the two pairs from position 4 * j on, or the one pair left at the end. */
  lemma PairsChunk(data: seq<Value>, j: nat)
    requires j < (|data| / 2 + 1) / 2
    ensures var ps := Pairs(data);
            var chunk := ps[2 * j..ChunkEnd(2 * j, |ps|)];
            && (4 * j + 3 < |data| ==> chunk == [(data[4 * j], data[4 * j + 1]), (data[4 * j + 2], data[4 * j + 3])])
            && (4 * j + 3 >= |data| ==> chunk == [(data[4 * j], data[4 * j + 1])])
  {
    var ps := Pairs(data);
    var chunk := ps[2 * j..ChunkEnd(2 * j, |ps|)];
    assert chunk[0] == ps[2 * j];
    if 4 * j + 3 < |data| {
      assert chunk[1] == ps[2 * j + 1];
    }
  }

  lemma FromPairsOne(c: seq<(Value, Value)>)
    requires |c| == 1
    ensures FromPairs(c).vals == map[c[0].0 := c[0].1]
  {
    assert c[..0] == [];
  }

  lemma FromPairsTwo(c: seq<(Value, Value)>)
    requires |c| == 2
    ensures FromPairs(c).vals == map[c[0].0 := c[0].1][c[1].0 := c[1].1]
  {
    FromPairsOne(c[..1]);
  }

  /** Every value of d is an element of data. */
  predicate ValuesIn(d: Dict<Value, Value>, data: seq<Value>) {
    forall k :: k in d.vals ==> d.vals[k] in data
  }

  /** Every key in the order of d has a value. */
  predicate KeysIn(d: Dict<Value, Value>) {
    forall k :: k in d.keys ==> k in d.vals
  }

  /** Every value of a decoded dict is an element of the list. */
  lemma DecodeValuesIn(data: seq<Value>, d: Dict<Value, Value>)
    requires Decode(data) == Success(AsDict(d))
    ensures ValuesIn(d, data)
  {
    DecodeDict(data, d);
  }

  /** list2dict, with the appending loop of its positions branch. */
  method List2Dict(data: seq<Value>) returns (r: Result<Decoded>)
    ensures r == Decode(data)
  {
    if |data| == 0 {
      return Failure(IndexError);
    }
    var kvTuples := Pairs(data);
    if !IsPositionKey(data[0]) {
      if Unhashable(kvTuples) {
        return Failure(TypeError);
      }
      return Success(AsDict(FromPairs(kvTuples)));
    }
    var listOfDict := PositionList(kvTuples);
    if listOfDict.Failure? {
      return Failure(listOfDict.error);
    }
    return Success(AsList(listOfDict.value));
  }

  /** One more chunk without a list key, and one more dict of the branch's result. */
  lemma PositionStep(kvTuples: seq<(Value, Value)>, j: nat)
    requires 2 * j < |kvTuples| && !Unhashable(kvTuples[2 * j..ChunkEnd(2 * j, |kvTuples|)])
    requires forall m :: 0 <= m < |kvTuples| && m < 2 * j ==> !kvTuples[m].0.Arr?
    ensures forall m :: 0 <= m < |kvTuples| && m < 2 * (j + 1) ==> !kvTuples[m].0.Arr?
    ensures PositionDicts(kvTuples)[..j + 1] ==
              PositionDicts(kvTuples)[..j] + [FromPairs(kvTuples[2 * j..ChunkEnd(2 * j, |kvTuples|)])]
  {
    ChunkKeysFree(kvTuples, j);
    var ds := PositionDicts(kvTuples);
    assert ds[j] == FromPairs(kvTuples[2 * j..ChunkEnd(2 * j, |kvTuples|)]);
    PrefixSnoc(ds, j);
  }

  /** A chunk without a list key extends the list-free prefix by the chunk. */
  lemma ChunkKeysFree(kvTuples: seq<(Value, Value)>, j: nat)
    requires 2 * j < |kvTuples| && !Unhashable(kvTuples[2 * j..ChunkEnd(2 * j, |kvTuples|)])
    requires forall m :: 0 <= m < |kvTuples| && m < 2 * j ==> !kvTuples[m].0.Arr?
    ensures forall m :: 0 <= m < |kvTuples| && m < 2 * (j + 1) ==> !kvTuples[m].0.Arr?
  {
    var chunk := kvTuples[2 * j..ChunkEnd(2 * j, |kvTuples|)];
    assert forall m :: 2 * j <= m < ChunkEnd(2 * j, |kvTuples|) ==> kvTuples[m] == chunk[m - 2 * j];
  }

  /** The positions branch of list2dict: listOfDict.append(dict(kv_tuples[i:i+2])) for every second i. */
  method PositionList(kvTuples: seq<(Value, Value)>) returns (r: Result<seq<Dict<Value, Value>>>)
    ensures r == if Unhashable(kvTuples) then Failure(TypeError) else Success(PositionDicts(kvTuples))
  {
    var listOfDict: seq<Dict<Value, Value>> := [];
    var j := 0;
    while 2 * j < |kvTuples|
      invariant 2 * j <= |kvTuples| + 1
      invariant forall m :: 0 <= m < |kvTuples| && m < 2 * j ==> !kvTuples[m].0.Arr?
      invariant listOfDict == PositionDicts(kvTuples)[..j]
    {
      var i := 2 * j;
      var chunk := kvTuples[i..ChunkEnd(i, |kvTuples|)];
      if Unhashable(chunk) {
        ChunkUnhashable(kvTuples, i, ChunkEnd(i, |kvTuples|));
        return Failure(TypeError);
      }
      PositionStep(kvTuples, j);
      listOfDict := listOfDict + [FromPairs(chunk)];
      j := j + 1;
    }
    assert j == (|kvTuples| + 1) / 2;
    assert listOfDict == PositionDicts(kvTuples);
    return Success(listOfDict);
  }

  /** A list key in a chunk is a list key of the whole. */
  lemma ChunkUnhashable(kvTuples: seq<(Value, Value)>, i: nat, e: nat)
    requires i <= e <= |kvTuples| && Unhashable(kvTuples[i..e])
    ensures Unhashable(kvTuples)
  {
    var m :| 0 <= m < e - i && kvTuples[i..e][m].0.Arr?;
    assert kvTuples[i + m].0.Arr?;
  }

  /** A dict value after nested_list2dict: kept as it was, or a list converted recursively. */
  datatype Entry = Plain(v: Value) | Sub(n: Nested)

  /** What nested_list2dict returns. */
  datatype Nested = NDict(d: Dict<Value, Entry>) | NList(ds: seq<Dict<Value, Value>>)

  /** The dict before its values are revisited: every value kept. */
  function Lift(d: Dict<Value, Value>): (r: Dict<Value, Entry>)
    ensures r.keys == d.keys && r.vals.Keys == d.vals.Keys && forall k :: k in r.vals ==> r.vals[k] == Plain(d.vals[k])
  {
    Dict(d.keys, map k | k in d.vals :: Plain(d.vals[k]))
  }

  /** nested_list2dict: list2dict, then every list value of a dict result converted in turn. */
  function NestedDecode(data: seq<Value>): Result<Nested>
    decreases Arr(data), 1, 0
  {
    match Decode(data)
    case Failure(e) => Failure(e)
    case Success(AsList(ds)) => Success(NList(ds))
    case Success(AsDict(d)) =>
      DecodeValuesIn(data, d);
      match ConvertFrom(data, d, |d.keys|)
      case Failure(e) => Failure(e)
      case Success(nd) => Success(NDict(nd))
  }

  /** The loop of nested_list2dict over the first n keys, stopping at the first failure. */
  function ConvertFrom(data: seq<Value>, d: Dict<Value, Value>, n: nat): (r: Result<Dict<Value, Entry>>)
    requires KeysIn(d) && n <= |d.keys| && ValuesIn(d, data)
    decreases Arr(data), 0, n
  {
    if n == 0 then Success(Lift(d))
    else
      match ConvertFrom(data, d, n - 1)
      case Failure(e) => Failure(e)
      case Success(prev) =>
        var k := d.keys[n - 1];
        match ConvertValue(d.vals[k])
        case Failure(e) => Failure(e)
        case Success(x) => Success(Dict(prev.keys, prev.vals[k := x]))
  }

  /** The loop keeps the dict's keys, in order, and its key set. */
  lemma {:induction false} ConvertFromKeys(data: seq<Value>, d: Dict<Value, Value>, n: nat)
    requires KeysIn(d) && n <= |d.keys| && ValuesIn(d, data)
    ensures ConvertFrom(data, d, n).Success? ==>
              ConvertFrom(data, d, n).value.keys == d.keys && ConvertFrom(data, d, n).value.vals.Keys == d.vals.Keys
  {
    if n > 0 {
      ConvertFromKeys(data, d, n - 1);
    }
  }

  /** What one value of the dict is assigned back as: a list converted recursively (or its error), anything else as it is. */
  function ConvertValue(v: Value): Result<Entry>
    decreases v, 2
  {
    if v.Arr? then
      match NestedDecode(v.items)
      case Failure(e) => Failure(e)
      case Success(sub) => Success(Sub(sub))
    else Success(Plain(v))
  }

  /** What a dict value becomes, given that its conversion succeeds. */
  function Converted(v: Value): Entry
    requires v.Arr? ==> NestedDecode(v.items).Success?
  {
    if v.Arr? then Sub(NestedDecode(v.items).value) else Plain(v)
  }

  /** A value converts unless it is a list whose nested conversion fails. */
  lemma ConvertValueIs(v: Value)
    ensures ConvertValue(v).Success? <==> (v.Arr? ==> NestedDecode(v.items).Success?)
    ensures ConvertValue(v).Success? ==> ConvertValue(v).value == Converted(v)
    ensures ConvertValue(v).Failure? ==> ConvertValue(v).error == NestedDecode(v.items).error
  {
  }

  /** Each of the first n keys' values converts. */
  predicate AllConvert(d: Dict<Value, Value>, n: nat)
    requires KeysIn(d) && n <= |d.keys|
  {
    forall i :: 0 <= i < n ==> ConvertValue(d.vals[d.keys[i]]).Success?
  }

  /** One more key converts iff the earlier ones do and its own value does. */
  lemma AllConvertSnoc(d: Dict<Value, Value>, n: nat)
    requires KeysIn(d) && 0 < n <= |d.keys|
    ensures AllConvert(d, n) <==> AllConvert(d, n - 1) && ConvertValue(d.vals[d.keys[n - 1]]).Success?
  {
    if AllConvert(d, n - 1) && ConvertValue(d.vals[d.keys[n - 1]]).Success? {
      forall i | 0 <= i < n ensures ConvertValue(d.vals[d.keys[i]]).Success? {
        if i < n - 1 {
        }
      }
    }
  }

  /** The loop over the first n keys succeeds iff each of their values converts. */
  lemma {:induction false} ConvertSucceeds(data: seq<Value>, d: Dict<Value, Value>, n: nat)
    requires KeysIn(d) && n <= |d.keys| && ValuesIn(d, data)
    ensures ConvertFrom(data, d, n).Success? <==> AllConvert(d, n)
  {
    if n > 0 {
      ConvertSucceeds(data, d, n - 1);
      ConvertSucceedsStep(data, d, n);
      AllConvertSnoc(d, n);
    }
  }

  /** One more key: the loop still succeeds iff it did and the key's value converts. */
  lemma ConvertSucceedsStep(data: seq<Value>, d: Dict<Value, Value>, n: nat)
    requires KeysIn(d) && 0 < n <= |d.keys| && ValuesIn(d, data)
    ensures ConvertFrom(data, d, n).Success? <==>
              ConvertFrom(data, d, n - 1).Success? && ConvertValue(d.vals[d.keys[n - 1]]).Success?
  {
  }

  /** After the loop over the first n keys, those keys hold their converted values and the rest their old ones. */
  lemma {:induction false} ConvertValuesAt(data: seq<Value>, d: Dict<Value, Value>, n: nat, i: nat)
    requires Valid(d) && n <= |d.keys| && ValuesIn(d, data)
    requires i < |d.keys| && ConvertFrom(data, d, n).Success?
    ensures i < n ==> ConvertValue(d.vals[d.keys[i]]).Success?
    ensures ConvertFrom(data, d, n).value.vals.Keys == d.vals.Keys
    ensures ConvertFrom(data, d, n).value.vals[d.keys[i]] ==
              if i < n then ConvertValue(d.vals[d.keys[i]]).value else Plain(d.vals[d.keys[i]])
  {
    ConvertSucceeds(data, d, n);
    ConvertFromKeys(data, d, n);
    if n > 0 {
      var prev := ConvertFrom(data, d, n - 1).value;
      ConvertValuesAt(data, d, n - 1, i);
      var k := d.keys[n - 1];
      assert ConvertFrom(data, d, n).value.vals == prev.vals[k := ConvertValue(d.vals[k]).value];
      if i != n - 1 {
        assert d.keys[i] != k;
      }
    }
  }

  /** nested_list2dict returns a list result of list2dict unchanged, and fails exactly as list2dict does. */
  lemma NestedOther(data: seq<Value>)
    ensures forall ds :: Decode(data) == Success(AsList(ds)) ==> NestedDecode(data) == Success(NList(ds))
    ensures Decode(data).Failure? ==> NestedDecode(data) == Failure(Decode(data).error)
  {
  }

  /**
   * For a dict result, nested_list2dict succeeds iff every list value
   * converts, and then keeps the keys in order and replaces exactly the list
   * values by their conversion.
   */
  lemma NestedDict(data: seq<Value>, d: Dict<Value, Value>)
    requires Decode(data) == Success(AsDict(d))
    ensures NestedDecode(data).Success? <==>
              forall k :: k in d.vals && d.vals[k].Arr? ==> NestedDecode(d.vals[k].items).Success?
    ensures NestedDecode(data).Success? ==>
              && NestedDecode(data).value.NDict?
              && NestedDecode(data).value.d.keys == d.keys
              && NestedDecode(data).value.d.vals.Keys == d.vals.Keys
              && forall k :: k in d.vals ==> NestedDecode(data).value.d.vals[k] == Converted(d.vals[k])
  {
    DecodeValuesIn(data, d);
    NestedDictSucceeds(data, d);
    if NestedDecode(data).Success? {
      NestedDictValues(data, d);
    }
  }

  /** For a dict result, nested_list2dict is the loop over all of its keys. */
  lemma NestedDecodeDict(data: seq<Value>, d: Dict<Value, Value>)
    requires Decode(data) == Success(AsDict(d))
    ensures Valid(d) && ValuesIn(d, data)
    ensures NestedDecode(data) == if ConvertFrom(data, d, |d.keys|).Success? then Success(NDict(ConvertFrom(data, d, |d.keys|).value))
                                  else Failure(ConvertFrom(data, d, |d.keys|).error)
  {
    DecodeValuesIn(data, d);
  }

  /** After the whole loop every key holds its converted value. */
  lemma ConvertAll(data: seq<Value>, d: Dict<Value, Value>)
    requires Valid(d) && ValuesIn(d, data) && ConvertFrom(data, d, |d.keys|).Success?
    ensures ConvertFrom(data, d, |d.keys|).value.keys == d.keys
    ensures ConvertFrom(data, d, |d.keys|).value.vals.Keys == d.vals.Keys
    ensures forall k :: k in d.vals ==>
              && ConvertValue(d.vals[k]).Success?
              && ConvertFrom(data, d, |d.keys|).value.vals[k] == ConvertValue(d.vals[k]).value
  {
    ConvertFromKeys(data, d, |d.keys|);
    forall k | k in d.vals
      ensures && ConvertValue(d.vals[k]).Success?
              && ConvertFrom(data, d, |d.keys|).value.vals[k] == ConvertValue(d.vals[k]).value
    {
      var i :| 0 <= i < |d.keys| && d.keys[i] == k;
      ConvertValuesAt(data, d, |d.keys|, i);
    }
  }

  lemma NestedDictSucceeds(data: seq<Value>, d: Dict<Value, Value>)
    requires Decode(data) == Success(AsDict(d))
    requires ValuesIn(d, data)
    ensures NestedDecode(data).Success? <==>
              forall k :: k in d.vals && d.vals[k].Arr? ==> NestedDecode(d.vals[k].items).Success?
  {
    NestedDecodeDict(data, d);
    ConvertSucceeds(data, d, |d.keys|);
    AllConvertKeys(d);
    forall k | k in d.vals {
      ConvertValueIs(d.vals[k]);
    }
  }

  /** Every key converts iff every value of the dict converts. */
  lemma AllConvertKeys(d: Dict<Value, Value>)
    requires Valid(d)
    ensures AllConvert(d, |d.keys|) <==> forall k :: k in d.vals ==> ConvertValue(d.vals[k]).Success?
  {
    if AllConvert(d, |d.keys|) {
      forall k | k in d.vals ensures ConvertValue(d.vals[k]).Success? {
        var i :| 0 <= i < |d.keys| && d.keys[i] == k;
      }
    }
  }

  lemma NestedDictValues(data: seq<Value>, d: Dict<Value, Value>)
    requires Decode(data) == Success(AsDict(d)) && NestedDecode(data).Success?
    requires ValuesIn(d, data)
    ensures forall k :: k in d.vals && d.vals[k].Arr? ==> NestedDecode(d.vals[k].items).Success?
    ensures && NestedDecode(data).value.NDict?
            && NestedDecode(data).value.d.keys == d.keys
            && NestedDecode(data).value.d.vals.Keys == d.vals.Keys
            && forall k :: k in d.vals ==> NestedDecode(data).value.d.vals[k] == Converted(d.vals[k])
  {
    NestedDecodeDict(data, d);
    ConvertAll(data, d);
    forall k | k in d.vals {
      ConvertValueIs(d.vals[k]);
    }
  }

  /** nested_list2dict. */
  method NestedList2Dict(data: seq<Value>) returns (r: Result<Nested>)
    ensures r == NestedDecode(data)
    decreases Arr(data), 2
  {
    var decoded := List2Dict(data);
    if decoded.Failure? {
      return Failure(decoded.error);
    }
    if decoded.value.AsList? {
      return Success(NList(decoded.value.ds));
    }
    var d := decoded.value.d;
    DecodeValuesIn(data, d);
    var converted := ConvertValues(data, d);
    if converted.Failure? {
      return Failure(converted.error);
    }
    return Success(NDict(converted.value));
  }

  /** The loop of nested_list2dict: each key of d in order gets its value back, a list value converted first. */
  method ConvertValues(data: seq<Value>, d: Dict<Value, Value>) returns (r: Result<Dict<Value, Entry>>)
    requires KeysIn(d) && ValuesIn(d, data)
    ensures r == ConvertFrom(data, d, |d.keys|)
    decreases Arr(data), 1
  {
    r := Success(Lift(d));
    var i := 0;
    while i < |d.keys| && r.Success?
      invariant 0 <= i <= |d.keys|
      invariant r == ConvertFrom(data, d, i)
      invariant r.Failure? ==> r == ConvertFrom(data, d, |d.keys|)
    {
      r := AssignBack(data, d, i, r.value);
      i := i + 1;
      if r.Failure? {
        ConvertFails(data, d, i, |d.keys|);
      }
    }
  }

  /** Once the loop has failed, it stays failed with the same error. */
  lemma {:induction false} ConvertFails(data: seq<Value>, d: Dict<Value, Value>, n: nat, m: nat)
    requires KeysIn(d) && n <= m <= |d.keys| && ValuesIn(d, data)
    ensures ConvertFrom(data, d, n).Failure? ==> ConvertFrom(data, d, m) == ConvertFrom(data, d, n)
    decreases m
  {
    if m > n {
      ConvertFails(data, d, n, m - 1);
    }
  }

  /** d[k] = v for the i-th key, after converting v when it is a list; a failure here is the failure of the whole loop. */
  method AssignBack(data: seq<Value>, d: Dict<Value, Value>, i: nat, nd: Dict<Value, Entry>)
    returns (r: Result<Dict<Value, Entry>>)
    requires KeysIn(d) && i < |d.keys| && ValuesIn(d, data)
    requires ConvertFrom(data, d, i) == Success(nd)
    ensures r == ConvertFrom(data, d, i + 1)
    decreases Arr(data), 0
  {
    var k := d.keys[i];
    var v := d.vals[k];
    ConvertStep(data, d, i, nd);
    if v.Arr? {
      var sub := NestedList2Dict(v.items);
      if sub.Failure? {
        return Failure(sub.error);
      }
      return Success(Dict(nd.keys, nd.vals[k := Sub(sub.value)]));
    }
    return Success(Dict(nd.keys, nd.vals[k := Plain(v)]));
  }

  /** One key of the loop: its value is assigned back, converted if it is a list. */
  lemma ConvertStep(data: seq<Value>, d: Dict<Value, Value>, i: nat, nd: Dict<Value, Entry>)
    requires KeysIn(d) && i < |d.keys| && ValuesIn(d, data)
    requires ConvertFrom(data, d, i) == Success(nd)
    ensures var v := d.vals[d.keys[i]];
            ConvertFrom(data, d, i + 1) ==
              if !v.Arr? then Success(Dict(nd.keys, nd.vals[d.keys[i] := Plain(v)]))
              else if NestedDecode(v.items).Failure? then Failure(NestedDecode(v.items).error)
              else Success(Dict(nd.keys, nd.vals[d.keys[i] := Sub(NestedDecode(v.items).value)]))
  {
  }

  // ---------------------------------------------------------------------
  // totaltermfreq: batched requests and their column labels
  // ---------------------------------------------------------------------

  /** max_terms_per_request */
  const MaxTermsPerRequest: nat := 10

  /** The end of terms[next_cursor:next_cursor+max_terms_per_request]. */
  function BatchEnd(start: nat, n: nat): nat {
    if start + MaxTermsPerRequest <= n then start + MaxTermsPerRequest else n
  }

  /** The term batches, one per next_cursor in range(0, len(terms), max_terms_per_request). */
  function Batches(terms: seq<string>): (r: seq<seq<string>>)
    ensures |r| == (|terms| + MaxTermsPerRequest - 1) / MaxTermsPerRequest
  {
    seq((|terms| + MaxTermsPerRequest - 1) / MaxTermsPerRequest,
        j requires 0 <= j < (|terms| + MaxTermsPerRequest - 1) / MaxTermsPerRequest =>
          terms[MaxTermsPerRequest * j..BatchEnd(MaxTermsPerRequest * j, |terms|)])
  }

  /**
   * The batches cut the terms into consecutive runs: each holds between one
   * and ten terms, the i-th term is term i % 10 of batch i / 10, and every
   * batch element is the term at that position.
   */
  lemma BatchesCover(terms: seq<string>)
    ensures forall j :: 0 <= j < |Batches(terms)| ==> 0 < |Batches(terms)[j]| <= MaxTermsPerRequest
    ensures forall i :: 0 <= i < |terms| ==>
              i / MaxTermsPerRequest < |Batches(terms)| &&
              i % MaxTermsPerRequest < |Batches(terms)[i / MaxTermsPerRequest]| &&
              Batches(terms)[i / MaxTermsPerRequest][i % MaxTermsPerRequest] == terms[i]
    ensures forall j, k :: 0 <= j < |Batches(terms)| && 0 <= k < |Batches(terms)[j]| ==>
              MaxTermsPerRequest * j + k < |terms| && Batches(terms)[j][k] == terms[MaxTermsPerRequest * j + k]
  {
    var b := Batches(terms);
    forall i | 0 <= i < |terms|
      ensures i / MaxTermsPerRequest < |b| && i % MaxTermsPerRequest < |b[i / MaxTermsPerRequest]| &&
              b[i / MaxTermsPerRequest][i % MaxTermsPerRequest] == terms[i]
    {
      var j := i / MaxTermsPerRequest;
      assert MaxTermsPerRequest * j + i % MaxTermsPerRequest == i;
    }
  }

  /** Element k of batch j is term 10 * j + k. */
  lemma BatchAt(terms: seq<string>, j: nat, k: nat)
    requires j < |Batches(terms)| && k < |Batches(terms)[j]|
    ensures k < MaxTermsPerRequest && MaxTermsPerRequest * j + k < |terms|
    ensures Batches(terms)[j][k] == terms[MaxTermsPerRequest * j + k]
  {
  }

  /** Term i is element i % 10 of batch i / 10. */
  lemma BatchOf(terms: seq<string>, i: nat)
    requires i < |terms|
    ensures i / MaxTermsPerRequest < |Batches(terms)|
    ensures i % MaxTermsPerRequest < |Batches(terms)[i / MaxTermsPerRequest]|
    ensures Batches(terms)[i / MaxTermsPerRequest][i % MaxTermsPerRequest] == terms[i]
  {
    assert MaxTermsPerRequest * (i / MaxTermsPerRequest) + i % MaxTermsPerRequest == i;
  }

  /** Terms without duplicates (list(set)) land in exactly one batch each. */
  lemma BatchesExactlyOnce(terms: seq<string>, t: string)
    requires NoDup(terms) && t in terms
    ensures exists j :: 0 <= j < |Batches(terms)| && t in Batches(terms)[j]
    ensures forall j1, j2 ::
              (0 <= j1 < |Batches(terms)| && 0 <= j2 < |Batches(terms)| &&
               t in Batches(terms)[j1] && t in Batches(terms)[j2]) ==> j1 == j2
  {
    var b := Batches(terms);
    var i :| 0 <= i < |terms| && terms[i] == t;
    BatchOf(terms, i);
    assert t in b[i / MaxTermsPerRequest];
    forall j1, j2 | 0 <= j1 < |b| && 0 <= j2 < |b| && t in b[j1] && t in b[j2] ensures j1 == j2 {
      var k1 :| 0 <= k1 < |b[j1]| && b[j1][k1] == t;
      var k2 :| 0 <= k2 < |b[j2]| && b[j2][k2] == t;
      BatchAt(terms, j1, k1);
      BatchAt(terms, j2, k2);
      assert MaxTermsPerRequest * j1 + k1 == MaxTermsPerRequest * j2 + k2;
    }
  }

  /** The text in front of a normalised term in its ttf column label. */
  function LabelPrefix(field: string): string {
    "ttf(" + field + ",'"
  }

  const LabelSuffix: string := "')"

  /** The function query ttf(field,'norm') requested, and returned as the column name. */
  function TtfLabel(field: string, norm: string): string {
    LabelPrefix(field) + norm + LabelSuffix
  }

  /** k.replace("ttf(field,'", '').replace("')", ''): the column name turned back into a key. */
  function UnLabel(field: string, k: string): string {
    ReplaceAll(ReplaceAll(k, LabelPrefix(field), ""), LabelSuffix, "")
  }

  /** A normalised term whose label the replacements take apart cleanly. */
  predicate LabelSafe(field: string, norm: string) {
    !Contains(norm + LabelSuffix, LabelPrefix(field)) && !Contains(norm, LabelSuffix)
  }

  /** Removing a pattern that occurs only as the suffix, and cannot overlap it, leaves what came before. */
  lemma {:induction false} RemoveTrailing(s: string, t: string)
    requires |t| > 0 && !Contains(s, t)
    requires forall m :: 1 <= m < |t| ==> t[m] != t[0]
    ensures ReplaceAll(s + t, t, "") == s
    decreases |s|
  {
    if s == [] {
      assert ([] + t)[..|t|] == t && ([] + t)[|t|..] == [];
    } else {
      var st := s + t;
      assert st[..|t|] != t by {
        if |s| >= |t| {
          assert s[..|t|] == st[..|t|];
          assert !OccursAt(s, t, 0);
        } else {
          assert st[..|t|][|s|] == t[0] != t[|s|];
        }
      }
      assert !Contains(s[1..], t) by {
        forall j: nat | OccursAt(s[1..], t, j) ensures false {
          OccursInSuffix(s, t, 1, j);
        }
      }
      RemoveTrailing(s[1..], t);
      assert st[1..] == s[1..] + t;
    }
  }

  /** The label's prefix comes off whole when it does not occur again after it. */
  lemma PrefixRemoved(field: string, norm: string)
    requires !Contains(norm + LabelSuffix, LabelPrefix(field))
    ensures ReplaceAll(TtfLabel(field, norm), LabelPrefix(field), "") == norm + LabelSuffix
  {
    var pre := LabelPrefix(field);
    var lbl := TtfLabel(field, norm);
    var rest := norm + LabelSuffix;
    assert lbl == pre + rest;
    assert lbl[..|pre|] == pre && lbl[|pre|..] == rest;
    ReplaceAbsent(rest, pre, "");
  }

  /** The column label of a safe normalised term decodes back to it. */
  lemma LabelRoundTrip(field: string, norm: string)
    requires LabelSafe(field, norm)
    ensures UnLabel(field, TtfLabel(field, norm)) == norm
  {
    PrefixRemoved(field, norm);
    RemoveTrailing(norm, LabelSuffix);
  }

  /** A normalised term holding "')" does not survive the decoding: the label of "a')b" decodes to "ab". */
  lemma LabelLossy(field: string)
    ensures UnLabel(field, TtfLabel(field, "a')b")) == "ab"
  {
    var pre := LabelPrefix(field);
    assert !Contains("a')b')", pre) by {
      forall i: nat | i <= 6 ensures !OccursAt("a')b')", pre, i) {
        if i + |pre| <= 6 {
          assert "a')b')"[i..i + |pre|][0] != pre[0];
        }
      }
    }
    assert "a')b" + LabelSuffix == "a')b')";
    PrefixRemoved(field, "a')b");
    assert UnLabel(field, TtfLabel(field, "a')b")) == ReplaceAll("a')b')", LabelSuffix, "");
    SuffixLossy();
  }

  lemma SuffixLossy()
    ensures ReplaceAll("a')b')", LabelSuffix, "") == "ab"
  {
    var s := "a')b')";
    assert s[..2][0] == 'a' != LabelSuffix[0];
    assert s[1..] == "')b')";
    assert ReplaceAll(s, LabelSuffix, "") == "a" + ReplaceAll("')b')", LabelSuffix, "");
    assert "')b')"[..2] == LabelSuffix && "')b')"[2..] == "b')";
    assert ReplaceAll("')b')", LabelSuffix, "") == ReplaceAll("b')", LabelSuffix, "");
    assert "b')"[..2][0] == 'b' != LabelSuffix[0];
    assert "b')"[1..] == "')";
    assert ReplaceAll("b')", LabelSuffix, "") == "b" + ReplaceAll("')", LabelSuffix, "");
    assert "')"[..2] == LabelSuffix && "')"[2..] == [];
    assert ReplaceAll("')", LabelSuffix, "") == "";
  }

  /** The labels of one request; normalising a term may raise, which ends the whole call. */
  function BatchLabels(field: string, batch: seq<string>, normalise: string -> Option<string>): (r: Result<seq<string>>)
    ensures r.Failure? <==> exists i :: 0 <= i < |batch| && normalise(batch[i]).None?
    ensures r.Failure? ==> r.error == AttributeError
    ensures r.Success? ==>
              |r.value| == |batch| &&
              forall i :: 0 <= i < |batch| ==> r.value[i] == TtfLabel(field, normalise(batch[i]).value)
  {
    if exists i :: 0 <= i < |batch| && normalise(batch[i]).None? then Failure(AttributeError)
    else Success(seq(|batch|, i requires 0 <= i < |batch| => TtfLabel(field, normalise(batch[i]).value)))
  }

  /** No later pair of items has the key of pair i. */
  predicate LastFor(items: seq<(string, int)>, i: nat)
    requires i < |items|
  {
    forall j :: i < j < |items| ==> items[j].0 != items[i].0
  }

  /** resultSet.update(doc): existing keys keep their place, new keys go last, later values win. */
  function UpdateWith(a: Dict<string, int>, items: seq<(string, int)>): (r: Dict<string, int>)
    requires Valid(a)
    ensures Valid(r)
    ensures forall k :: k in r.vals <==> k in a.vals || k in Firsts(items)
    ensures forall k :: k in a.vals && k !in Firsts(items) ==> r.vals[k] == a.vals[k]
  {
    if items == [] then a
    else
      var init, last := items[..|items| - 1], items[|items| - 1];
      assert Firsts(items) == Firsts(init) + [last.0];
      Put(UpdateWith(a, init), last.0, last.1)
  }

  /** Existing keys keep their place and new keys follow them. */
  lemma {:induction false} UpdateKeepsOrder(a: Dict<string, int>, items: seq<(string, int)>)
    requires Valid(a)
    ensures |a.keys| <= |UpdateWith(a, items).keys| && UpdateWith(a, items).keys[..|a.keys|] == a.keys
  {
    if items != [] {
      var init, last := items[..|items| - 1], items[|items| - 1];
      UpdateKeepsOrder(a, init);
      var prev := UpdateWith(a, init);
      assert (prev.keys + [last.0])[..|a.keys|] == prev.keys[..|a.keys|];
    }
  }

  /** Later values win: each key ends with the value of its last pair. */
  lemma {:induction false} UpdateLastWins(a: Dict<string, int>, items: seq<(string, int)>)
    requires Valid(a)
    ensures forall i :: 0 <= i < |items| && LastFor(items, i) ==>
              items[i].0 in UpdateWith(a, items).vals && UpdateWith(a, items).vals[items[i].0] == items[i].1
  {
    if items != [] {
      var init, last := items[..|items| - 1], items[|items| - 1];
      UpdateLastWins(a, init);
      var r := UpdateWith(a, items);
      assert r.vals == UpdateWith(a, init).vals[last.0 := last.1];
      forall i | 0 <= i < |items| - 1 && LastFor(items, i)
        ensures items[i].0 in r.vals && r.vals[items[i].0] == items[i].1
      {
        assert LastFor(init, i) && init[i] == items[i] && items[i].0 != last.0;
      }
    }
  }

  /** The merged result of requesting the batches in order, or the error of the first request that fails. */
  function Merged(field: string, batches: seq<seq<string>>, normalise: string -> Option<string>,
                  docsFor: seq<string> -> seq<seq<(string, int)>>): (r: Result<Dict<string, int>>)
    ensures r.Success? ==> Valid(r.value)
  {
    if batches == [] then Success(Empty())
    else
      match Merged(field, batches[..|batches| - 1], normalise, docsFor)
      case Failure(e) => Failure(e)
      case Success(prev) =>
        match BatchLabels(field, batches[|batches| - 1], normalise)
        case Failure(e) => Failure(e)
        case Success(labels) =>
          var docs := docsFor(labels);
          if docs == [] then Failure(IndexError) else Success(UpdateWith(prev, docs[0]))
  }

  /** The merged columns renamed to their keys. */
  function Renamed(field: string, items: seq<(string, int)>): (r: seq<(string, int)>)
    ensures |r| == |items| && forall i :: 0 <= i < |items| ==> r[i] == (UnLabel(field, items[i].0), items[i].1)
  {
    seq(|items|, i requires 0 <= i < |items| => (UnLabel(field, items[i].0), items[i].1))
  }

  /** totaltermfreq: all batches requested and merged, then the column names decoded into keys. */
  function TotalTermFreqOf(field: string, terms: seq<string>, normalise: string -> Option<string>,
                           docsFor: seq<string> -> seq<seq<(string, int)>>): Result<Dict<string, int>>
  {
    match Merged(field, Batches(terms), normalise, docsFor)
    case Failure(e) => Failure(e)
    case Success(merged) => Success(FromPairs(Renamed(field, Items(merged))))
  }

  /** A server that answers every request with a first document holding exactly the requested columns. */
  ghost predicate AnswersColumns(docsFor: seq<string> -> seq<seq<(string, int)>>) {
    forall labels :: docsFor(labels) != [] && Firsts(docsFor(labels)[0]) == labels
  }

  /** Every term of every batch normalises without raising. */
  ghost predicate AllNormalise(batches: seq<seq<string>>, normalise: string -> Option<string>) {
    forall j, i :: 0 <= j < |batches| && 0 <= i < |batches[j]| ==> normalise(batches[j][i]).Some?
  }

  /** k is the label of some term of the batches. */
  ghost predicate LabelledIn(field: string, batches: seq<seq<string>>, normalise: string -> Option<string>, k: string) {
    exists j, i :: 0 <= j < |batches| && 0 <= i < |batches[j]| &&
      normalise(batches[j][i]).Some? && k == TtfLabel(field, normalise(batches[j][i]).value)
  }

  /** With such a server and terms that all normalise, every request succeeds and the columns are the labels requested. */
  lemma {:induction false} MergedColumns(field: string, batches: seq<seq<string>>, normalise: string -> Option<string>,
                                         docsFor: seq<string> -> seq<seq<(string, int)>>)
    requires AnswersColumns(docsFor) && AllNormalise(batches, normalise)
    ensures Merged(field, batches, normalise, docsFor).Success?
    ensures forall k :: k in Merged(field, batches, normalise, docsFor).value.vals <==>
              LabelledIn(field, batches, normalise, k)
  {
    if batches != [] {
      var n := |batches| - 1;
      var init := batches[..n];
      var batch := batches[n];
      assert batches == init + [batch];
      AllNormaliseSplit(batches, init, batch, normalise);
      MergedColumns(field, init, normalise, docsFor);
      var prev := Merged(field, init, normalise, docsFor).value;
      var labels := BatchLabels(field, batch, normalise).value;
      var doc := docsFor(labels)[0];
      assert Merged(field, batches, normalise, docsFor) == Success(UpdateWith(prev, doc));
      assert Firsts(doc) == labels;
      forall k ensures k in UpdateWith(prev, doc).vals <==> LabelledIn(field, batches, normalise, k) {
        LabelledSnoc(field, init, batch, normalise, k);
        BatchLabelsMembers(field, batch, normalise, k);
      }
    }
  }

  /** Every term of the earlier batches and of the last batch normalises. */
  lemma AllNormaliseSplit(batches: seq<seq<string>>, init: seq<seq<string>>, batch: seq<string>,
                           normalise: string -> Option<string>)
    requires batches == init + [batch] && AllNormalise(batches, normalise)
    ensures AllNormalise(init, normalise)
    ensures forall i :: 0 <= i < |batch| ==> normalise(batch[i]).Some?
  {
    assert batches[|init|] == batch;
    forall j, i | 0 <= j < |init| && 0 <= i < |init[j]| ensures normalise(init[j][i]).Some? {
      assert init[j] == batches[j];
    }
  }

  /** The labels of a batch whose terms all normalise are those of its terms. */
  lemma BatchLabelsMembers(field: string, batch: seq<string>, normalise: string -> Option<string>, k: string)
    requires forall i :: 0 <= i < |batch| ==> normalise(batch[i]).Some?
    ensures BatchLabels(field, batch, normalise).Success?
    ensures k in BatchLabels(field, batch, normalise).value <==>
              exists i :: 0 <= i < |batch| && k == TtfLabel(field, normalise(batch[i]).value)
  {
    var labels := BatchLabels(field, batch, normalise).value;
    if k in labels {
      var i :| 0 <= i < |labels| && labels[i] == k;
    }
    if exists i :: 0 <= i < |batch| && k == TtfLabel(field, normalise(batch[i]).value) {
      var i :| 0 <= i < |batch| && k == TtfLabel(field, normalise(batch[i]).value);
      assert labels[i] == k;
    }
  }

  /** The labels of one more batch are those of the earlier batches and those of the new one. */
  lemma LabelledSnoc(field: string, init: seq<seq<string>>, batch: seq<string>, normalise: string -> Option<string>, k: string)
    requires forall i :: 0 <= i < |batch| ==> normalise(batch[i]).Some?
    ensures LabelledIn(field, init + [batch], normalise, k) <==>
              LabelledIn(field, init, normalise, k) ||
              exists i :: 0 <= i < |batch| && k == TtfLabel(field, normalise(batch[i]).value)
  {
    var batches := init + [batch];
    if LabelledIn(field, init, normalise, k) {
      var j, i :| 0 <= j < |init| && 0 <= i < |init[j]| &&
        normalise(init[j][i]).Some? && k == TtfLabel(field, normalise(init[j][i]).value);
      assert batches[j] == init[j];
    }
    if exists i :: 0 <= i < |batch| && k == TtfLabel(field, normalise(batch[i]).value) {
      var i :| 0 <= i < |batch| && k == TtfLabel(field, normalise(batch[i]).value);
      assert batches[|init|] == batch;
    }
    if LabelledIn(field, batches, normalise, k) {
      var j, i :| 0 <= j < |batches| && 0 <= i < |batches[j]| &&
        normalise(batches[j][i]).Some? && k == TtfLabel(field, normalise(batches[j][i]).value);
      if j < |init| {
        assert batches[j] == init[j];
      }
    }
  }

  /**
   * With a server that returns the requested columns and normalised terms
   * that are safe in a label, totaltermfreq succeeds and is keyed by exactly
   * the normalised terms: terms sharing a normal form share one entry.
   */
  lemma TotalTermFreqKeys(field: string, terms: seq<string>, normalise: string -> Option<string>,
                          docsFor: seq<string> -> seq<seq<(string, int)>>)
    requires AnswersColumns(docsFor)
    requires forall t :: t in terms ==> normalise(t).Some? && LabelSafe(field, normalise(t).value)
    ensures TotalTermFreqOf(field, terms, normalise, docsFor).Success?
    ensures forall n :: n in TotalTermFreqOf(field, terms, normalise, docsFor).value.vals <==>
              exists t :: t in terms && normalise(t) == Some(n)
  {
    var b := Batches(terms);
    assert AllNormalise(b, normalise) by {
      forall j, i | 0 <= j < |b| && 0 <= i < |b[j]| ensures normalise(b[j][i]).Some? {
        BatchAt(terms, j, i);
      }
    }
    MergedColumns(field, b, normalise, docsFor);
    var merged := Merged(field, b, normalise, docsFor).value;
    var items := Items(merged);
    var renamed := Renamed(field, items);
    var r := FromPairs(renamed);
    forall n ensures n in r.vals <==> exists t :: t in terms && normalise(t) == Some(n) {
      if n in r.vals {
        TermOfKey(field, terms, normalise, docsFor, n);
      }
      if exists t :: t in terms && normalise(t) == Some(n) {
        var t :| t in terms && normalise(t) == Some(n);
        KeyOfTerm(field, terms, normalise, docsFor, t);
      }
    }
  }

  /** Every key of the result is the normal form of a term. */
  lemma TermOfKey(field: string, terms: seq<string>, normalise: string -> Option<string>,
                  docsFor: seq<string> -> seq<seq<(string, int)>>, n: string)
    requires forall t :: t in terms ==> normalise(t).Some? && LabelSafe(field, normalise(t).value)
    requires Merged(field, Batches(terms), normalise, docsFor).Success?
    requires forall k :: k in Merged(field, Batches(terms), normalise, docsFor).value.vals ==>
               LabelledIn(field, Batches(terms), normalise, k)
    requires n in FromPairs(Renamed(field, Items(Merged(field, Batches(terms), normalise, docsFor).value))).vals
    ensures exists t :: t in terms && normalise(t) == Some(n)
  {
    var b := Batches(terms);
    var merged := Merged(field, b, normalise, docsFor).value;
    var renamed := Renamed(field, Items(merged));
    assert n in Firsts(renamed);
    var m :| 0 <= m < |renamed| && Firsts(renamed)[m] == n;
    var k := merged.keys[m];
    assert k in merged.vals;
    var j, i :| 0 <= j < |b| && 0 <= i < |b[j]| &&
      normalise(b[j][i]).Some? && k == TtfLabel(field, normalise(b[j][i]).value);
    BatchAt(terms, j, i);
    var t := b[j][i];
    assert t in terms;
    LabelRoundTrip(field, normalise(t).value);
  }

  /** The normal form of every term is a key of the result. */
  lemma KeyOfTerm(field: string, terms: seq<string>, normalise: string -> Option<string>,
                  docsFor: seq<string> -> seq<seq<(string, int)>>, t: string)
    requires t in terms && normalise(t).Some? && LabelSafe(field, normalise(t).value)
    requires Merged(field, Batches(terms), normalise, docsFor).Success?
    requires forall k :: LabelledIn(field, Batches(terms), normalise, k) ==>
               k in Merged(field, Batches(terms), normalise, docsFor).value.vals
    ensures normalise(t).value in FromPairs(Renamed(field, Items(Merged(field, Batches(terms), normalise, docsFor).value))).vals
  {
    var b := Batches(terms);
    var merged := Merged(field, b, normalise, docsFor).value;
    var renamed := Renamed(field, Items(merged));
    var n := normalise(t).value;
    var i :| 0 <= i < |terms| && terms[i] == t;
    BatchOf(terms, i);
    var k := TtfLabel(field, n);
    assert LabelledIn(field, b, normalise, k) by {
      assert b[i / MaxTermsPerRequest][i % MaxTermsPerRequest] == t;
    }
    assert k in merged.keys;
    var m :| 0 <= m < |merged.keys| && merged.keys[m] == k;
    LabelRoundTrip(field, n);
    assert Firsts(renamed)[m] == n;
    assert n in Distinct(Firsts(renamed));
  }

  /** totaltermfreq: one request per batch, each first document merged in, then the keys decoded. */
  method TotalTermFreq(field: string, terms: seq<string>, normalise: string -> Option<string>,
                       docsFor: seq<string> -> seq<seq<(string, int)>>) returns (r: Result<Dict<string, int>>)
    ensures r == TotalTermFreqOf(field, terms, normalise, docsFor)
  {
    var resultSet: Dict<string, int> := Empty();
    var j := 0;
    ghost var b := Batches(terms);
    while MaxTermsPerRequest * j < |terms|
      invariant j <= |b|
      invariant j < |b| <==> MaxTermsPerRequest * j < |terms|
      invariant Merged(field, b[..j], normalise, docsFor) == Success(resultSet)
    {
      var nextCursor := MaxTermsPerRequest * j;
      var currentTerms := terms[nextCursor..BatchEnd(nextCursor, |terms|)];
      assert currentTerms == b[j];
      var labels := BatchLabels(field, currentTerms, normalise);
      if labels.Failure? {
        MergedStepFails(field, b, j, normalise, docsFor, resultSet);
        return Failure(labels.error);
      }
      var result := docsFor(labels.value);
      if result == [] {
        MergedStepFails(field, b, j, normalise, docsFor, resultSet);
        return Failure(IndexError);
      }
      MergedStep(field, b, j, normalise, docsFor, resultSet, labels.value);
      resultSet := UpdateWith(resultSet, result[0]);
      j := j + 1;
    }
    assert b[..j] == b;
    return Success(FromPairs(Renamed(field, Items(resultSet))));
  }

  /** A batch whose labels or request fail ends the whole merge with that error. */
  lemma MergedStepFails(field: string, batches: seq<seq<string>>, j: nat, normalise: string -> Option<string>,
                        docsFor: seq<string> -> seq<seq<(string, int)>>, prev: Dict<string, int>)
    requires j < |batches| && Merged(field, batches[..j], normalise, docsFor) == Success(prev)
    requires BatchLabels(field, batches[j], normalise).Success? ==>
               docsFor(BatchLabels(field, batches[j], normalise).value) == []
    ensures Merged(field, batches, normalise, docsFor) ==
              if BatchLabels(field, batches[j], normalise).Failure? then Failure(BatchLabels(field, batches[j], normalise).error)
              else Failure(IndexError)
  {
    assert batches[..j + 1][..j] == batches[..j] && batches[..j + 1][j] == batches[j];
    MergedFails(field, batches, j + 1, normalise, docsFor);
  }

  /** A batch whose labels and request succeed merges its first document into the columns so far. */
  lemma MergedStep(field: string, batches: seq<seq<string>>, j: nat, normalise: string -> Option<string>,
                   docsFor: seq<string> -> seq<seq<(string, int)>>, prev: Dict<string, int>, labels: seq<string>)
    requires j < |batches| && Merged(field, batches[..j], normalise, docsFor) == Success(prev)
    requires BatchLabels(field, batches[j], normalise) == Success(labels) && docsFor(labels) != []
    ensures Merged(field, batches[..j + 1], normalise, docsFor) == Success(UpdateWith(prev, docsFor(labels)[0]))
  {
    assert batches[..j + 1][..j] == batches[..j] && batches[..j + 1][j] == batches[j];
  }

  /** Once a request has failed, the later batches are not requested and the call fails with that error. */
  lemma {:induction false} MergedFails(field: string, batches: seq<seq<string>>, n: nat,
                                       normalise: string -> Option<string>,
                                       docsFor: seq<string> -> seq<seq<(string, int)>>)
    requires n <= |batches| && Merged(field, batches[..n], normalise, docsFor).Failure?
    ensures Merged(field, batches, normalise, docsFor) == Merged(field, batches[..n], normalise, docsFor)
    decreases |batches|
  {
    if n < |batches| {
      var init := batches[..|batches| - 1];
      assert init[..n] == batches[..n];
      MergedFails(field, init, n, normalise, docsFor);
    } else {
      assert batches[..n] == batches;
    }
  }

  // ---------------------------------------------------------------------
  // _extract_error
  // ---------------------------------------------------------------------

  const PreOpen: string := "<pre>"
  const PreClose: string := "</pre>"
  const ErrorPrefix: string := "Error: "

  /**
   * ER_RE.search(response) for ER_RE = <pre>(.|\n)*?</pre>: the span from
   * the leftmost <pre> to the nearest </pre> after it (PreBlockNone: there
   * is none exactly when no <pre> is followed by a </pre>).
   */
  function PreBlock(s: string): (r: Option<(nat, nat)>)
    ensures r.Some? ==>
              && OccursAt(s, PreOpen, r.value.0)
              && (forall i: nat :: i < r.value.0 ==> !OccursAt(s, PreOpen, i))
              && r.value.0 + |PreOpen| + |PreClose| <= r.value.1 <= |s|
              && OccursAt(s, PreClose, r.value.1 - |PreClose|)
              && (forall j: nat :: r.value.0 + |PreOpen| <= j < r.value.1 - |PreClose| ==> !OccursAt(s, PreClose, j))
  {
    match FindFrom(s, PreOpen, 0)
    case None => None
    case Some(i) =>
      match FindFrom(s, PreClose, i + |PreOpen|)
      case None => None
      case Some(j) => Some((i, j + |PreClose|))
  }

  /** There is no <pre> block exactly when no <pre> is followed by a </pre>. */
  lemma PreBlockNone(s: string)
    ensures PreBlock(s).None? <==>
              forall i: nat, j: nat :: OccursAt(s, PreOpen, i) && i + |PreOpen| <= j ==> !OccursAt(s, PreClose, j)
  {
  }

  /** _extract_error: "Error: " and the first <pre> block with every tag removed, or the whole response. */
  function ExtractError(response: string): (r: string)
    ensures |r| >= |ErrorPrefix| && r[..|ErrorPrefix|] == ErrorPrefix
    ensures |r| <= |ErrorPrefix| + |response|
    ensures PreBlock(response).None? ==> r == ErrorPrefix + response
  {
    match PreBlock(response)
    case None => ErrorPrefix + response
    case Some((i, e)) => ErrorPrefix + ReplaceAll(ReplaceAll(response[i..e], PreOpen, ""), PreClose, "")
  }

  /** Without a <pre> block the message carries the whole response. */
  lemma ExtractErrorWhole(response: string)
    requires forall i: nat, j: nat :: OccursAt(response, PreOpen, i) && i + |PreOpen| <= j ==> !OccursAt(response, PreClose, j)
    ensures ExtractError(response) == ErrorPrefix + response
  {
    PreBlockNone(response);
  }

  /** No <pre> lies inside </pre>. */
  lemma CloseHoldsNoOpen()
    ensures !Contains(PreClose, PreOpen)
  {
    forall i: nat | i <= |PreClose| ensures !OccursAt(PreClose, PreOpen, i) {
      if i + |PreOpen| <= |PreClose| {
        var w := PreClose[i..i + |PreOpen|];
        if i == 0 {
          assert w[1] == '/' != PreOpen[1];
        } else {
          assert w[0] == '/' != PreOpen[0];
        }
      }
    }
  }

  /**
   * An opening tag that is not in a text, not in the closing tag, and whose
   * letters after the first all differ from the closing tag's first letter,
   * is not in the text followed by the closing tag either.
   */
  lemma OpenNotBeforeClose(open: string, close: string, body: string)
    requires |close| > 0 && !Contains(body, open) && !Contains(close, open)
    requires forall k :: 1 <= k < |open| ==> open[k] != close[0]
    ensures !Contains(body + close, open)
  {
    assert open != [] by {
      if open == [] {
        assert OccursAt(body, open, 0);
      }
    }
    var st := body + close;
    forall i: nat | i <= |st| ensures !OccursAt(st, open, i) {
      if i + |open| <= |st| {
        var w := st[i..i + |open|];
        if i + |open| <= |body| {
          assert w == body[i..i + |open|];
          assert !OccursAt(body, open, i);
        } else if i < |body| {
          assert w[|body| - i] == close[0] != open[|body| - i];
        } else {
          assert w == close[i - |body|..i - |body| + |open|];
          assert !OccursAt(close, open, i - |body|);
        }
      }
    }
  }

  /** The text between the tags of the block holds no </pre>: the match stops at the first one. */
  lemma BlockBodyNoClose(response: string, i: nat, e: nat)
    requires i + |PreOpen| + |PreClose| <= e <= |response|
    requires forall j: nat :: i + |PreOpen| <= j < e - |PreClose| ==> !OccursAt(response, PreClose, j)
    ensures !Contains(response[i + |PreOpen|..e - |PreClose|], PreClose)
  {
    var body := response[i + |PreOpen|..e - |PreClose|];
    forall j: nat | j <= |body| ensures !OccursAt(body, PreClose, j) {
      if j + |PreClose| <= |body| {
        var a := i + |PreOpen| + j;
        var inBody := body[j..j + |PreClose|];
        var inResponse := response[a..a + |PreClose|];
        forall k | 0 <= k < |PreClose| ensures inBody[k] == inResponse[k] {
          assert body[j + k] == response[a + k];
        }
        assert inResponse == inBody;
        assert !OccursAt(response, PreClose, a);
      }
    }
  }

  /**
   * With a block whose text holds no further <pre>, the message is "Error: "
   * followed by exactly the text between the tags.
   */
  lemma ExtractErrorBlock(response: string, i: nat, e: nat)
    requires PreBlock(response) == Some((i, e))
    requires !Contains(response[i + |PreOpen|..e - |PreClose|], PreOpen)
    ensures ExtractError(response) == ErrorPrefix + response[i + |PreOpen|..e - |PreClose|]
  {
    ExtractErrorOfBlock(response, i, e);
    BlockStripped(response, i, e);
  }

  /** Stripping the tags from the block leaves the text between them. */
  lemma BlockStripped(response: string, i: nat, e: nat)
    requires PreBlock(response) == Some((i, e))
    requires !Contains(response[i + |PreOpen|..e - |PreClose|], PreOpen)
    ensures i + |PreOpen| <= e - |PreClose| && e <= |response|
    ensures ReplaceAll(ReplaceAll(response[i..e], PreOpen, ""), PreClose, "") == response[i + |PreOpen|..e - |PreClose|]
  {
    var body := response[i + |PreOpen|..e - |PreClose|];
    BlockSplit(response, PreOpen, PreClose, i, e);
    BlockBodyNoClose(response, i, e);
    TagsRemoved(body);
  }

  /** With a block, the message is the prefix and the block with its tags stripped. */
  lemma ExtractErrorOfBlock(response: string, i: nat, e: nat)
    requires PreBlock(response) == Some((i, e))
    ensures i <= e <= |response|
    ensures ExtractError(response) == ErrorPrefix + ReplaceAll(ReplaceAll(response[i..e], PreOpen, ""), PreClose, "")
  {
  }

  /** A span that starts with open and ends with close is open, the text between, and close. */
  lemma BlockSplit(s: string, open: string, close: string, i: nat, e: nat)
    requires i + |open| + |close| <= e <= |s|
    requires OccursAt(s, open, i) && OccursAt(s, close, e - |close|)
    ensures s[i..e] == open + s[i + |open|..e - |close|] + close
  {
    var a, b := i + |open|, e - |close|;
    assert s[i..e] == s[i..a] + s[a..b] + s[b..e];
  }

  /** Stripping both tags from a block whose text holds neither tag leaves that text. */
  lemma TagsRemoved(body: string)
    requires !Contains(body, PreOpen) && !Contains(body, PreClose)
    ensures ReplaceAll(ReplaceAll(PreOpen + body + PreClose, PreOpen, ""), PreClose, "") == body
  {
    CloseHoldsNoOpen();
    assert forall k :: 1 <= k < |PreOpen| ==> PreOpen[k] != PreClose[0];
    OpenNotBeforeClose(PreOpen, PreClose, body);
    assert forall m :: 1 <= m < |PreClose| ==> PreClose[m] != PreClose[0];
    RemoveEnclosing(PreOpen, PreClose, body);
  }

  /** Removing an opening tag that occurs only at the front, then a closing tag that occurs only at the end, leaves the body. */
  lemma RemoveEnclosing(open: string, close: string, body: string)
    requires |open| > 0 && |close| > 0
    requires !Contains(body + close, open) && !Contains(body, close)
    requires forall m :: 1 <= m < |close| ==> close[m] != close[0]
    ensures ReplaceAll(ReplaceAll(open + body + close, open, ""), close, "") == body
  {
    var block := open + body + close;
    assert block == open + (body + close);
    assert block[..|open|] == open && block[|open|..] == body + close;
    assert ReplaceAll(block, open, "") == ReplaceAll(body + close, open, "");
    ReplaceAbsent(body + close, open, "");
    RemoveTrailing(body, close);
  }
}
