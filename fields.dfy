/**
 Field-clash prefixing of formatter.go (`prefixFieldClashes`): before an entry
 is serialised, a user field stored under one of the keys the formatter writes
 itself (`time`, `msg`, `level`, and `caller` when callers are shown) is copied
 to `fields.<key>` so that its value survives; the resolved caller location is
 then stored under `caller`.

 `Prefixed` states the new field map as a function of the old one; the lemmas
 below it say what that means key by key; the class `Fields` holds the map the
 source updates in place and its method is proved to produce `Prefixed`.
 */
module FieldClashes {
  import opened CallerResolution

  /** A field value. Go stores `interface{}` values; the model tells strings apart
      (the resolved caller is one) and stands for any other value by an integer
      or an identity. */
  datatype Value = Str(s: string) | Int(i: int) | Other(id: nat)

  type FieldMap = map<string, Value>

  /** The keys aliased whether or not callers are shown. */
  const ReservedKeys: set<string> := {"time", "msg", "level"}

  const CallerKey: string := "caller"

  /** The key under which a clashing user value is kept. */
  function Alias(key: string): string
  {
    "fields." + key
  }

  /** The aliases created for the reserved keys present in `m`. */
  function AliasesOf(m: FieldMap): set<string>
  {
    (if "time" in m then {Alias("time")} else {}) +
    (if "msg" in m then {Alias("msg")} else {}) +
    (if "level" in m then {Alias("level")} else {})
  }

  /** Copies the value under `key`, if there is one, to `fields.<key>`. */
  function AliasIfPresent(m: FieldMap, key: string): FieldMap
  {
    if key in m then m[Alias(key) := m[key]] else m
  }

  /** The map after the three unconditional copies of `time`, `msg` and `level`. */
  function PrefixReserved(m: FieldMap): FieldMap
  {
    AliasIfPresent(AliasIfPresent(AliasIfPresent(m, "time"), "msg"), "level")
  }

  /** The field map after `prefixFieldClashes(data, showCaller, depth)`, where
      `callerInfo` is what `getcaller(depth)` returned. */
  function Prefixed(m: FieldMap, showCaller: bool, callerInfo: string): FieldMap
  {
    var r := PrefixReserved(m);
    if showCaller then AliasIfPresent(r, CallerKey)[CallerKey := Str(callerInfo)] else r
  }

  /** The aliases are spelled as the source writes them and clash with nothing else
      the function touches. */
  lemma AliasesDiffer()
    ensures Alias("time") == "fields.time" && Alias("msg") == "fields.msg"
    ensures Alias("level") == "fields.level" && Alias(CallerKey) == "fields.caller"
    ensures Alias("time") != Alias("msg") && Alias("time") != Alias("level") && Alias("msg") != Alias("level")
    ensures forall key | key in ReservedKeys :: Alias(key) !in ReservedKeys
    ensures forall key | key in ReservedKeys :: Alias(key) != CallerKey && Alias(key) != Alias(CallerKey)
    ensures CallerKey !in ReservedKeys && Alias(CallerKey) !in ReservedKeys && Alias(CallerKey) != CallerKey
  {
    assert Alias("time")[7] == 't' && Alias("msg")[7] == 'm' && Alias("level")[7] == 'l';
    assert Alias(CallerKey)[7] == 'c';
    assert |Alias("time")| == 11 && |Alias("msg")| == 10 && |Alias("level")| == 12;
    assert |Alias(CallerKey)| == 13;
  }

  /** One copy adds the alias of a present key, gives it that key's value, and
      leaves every other key as it was. */
  lemma AliasIfPresentEffect(m: FieldMap, key: string)
    ensures var r := AliasIfPresent(m, key);
      r.Keys == m.Keys + (if key in m then {Alias(key)} else {})
    ensures var r := AliasIfPresent(m, key);
      forall k | k in m && !(key in m && k == Alias(key)) :: r[k] == m[k]
    ensures key in m ==> AliasIfPresent(m, key)[Alias(key)] == m[key]
  {
  }

  /** The three copies add exactly the aliases of the reserved keys present, give
      each its key's value, and leave every other key as it was. */
  lemma PrefixReservedEffect(m: FieldMap)
    ensures var r := PrefixReserved(m);
      r.Keys == m.Keys + AliasesOf(m)
    ensures var r := PrefixReserved(m);
      forall k | k in m && k !in AliasesOf(m) :: r[k] == m[k]
    ensures var r := PrefixReserved(m);
      forall key | key in ReservedKeys && key in m :: r[Alias(key)] == m[key]
  {
    AliasesDiffer();
    var m1 := AliasIfPresent(m, "time");
    var m2 := AliasIfPresent(m1, "msg");
    AliasIfPresentEffect(m, "time");
    AliasIfPresentEffect(m1, "msg");
    AliasIfPresentEffect(m2, "level");
  }

  /** Every reserved key present before keeps its value and has it copied to its
      alias. */
  lemma ReservedKeysAliased(m: FieldMap, showCaller: bool, callerInfo: string)
    ensures var r := Prefixed(m, showCaller, callerInfo);
      forall key | key in ReservedKeys && key in m ::
        key in r && r[key] == m[key] && Alias(key) in r && r[Alias(key)] == m[key]
  {
    AliasesDiffer();
    PrefixReservedEffect(m);
    var p := PrefixReserved(m);
    var r := Prefixed(m, showCaller, callerInfo);
    if showCaller {
      AliasIfPresentEffect(p, CallerKey);
    }
    forall key | key in ReservedKeys && key in m
      ensures key in r && r[key] == m[key] && Alias(key) in r && r[Alias(key)] == m[key]
    {
      assert key !in AliasesOf(m);
      assert key in p && p[key] == m[key] && Alias(key) in p && p[Alias(key)] == m[key];
    }
  }

  /** A reserved key that is absent produces no alias: an alias already there keeps
      its value, and none is created. */
  lemma AbsentKeysNotAliased(m: FieldMap, showCaller: bool, callerInfo: string)
    ensures var r := Prefixed(m, showCaller, callerInfo);
      forall key | key in ReservedKeys && key !in m ::
        key !in r && (Alias(key) in r <==> Alias(key) in m) &&
        (Alias(key) in m ==> r[Alias(key)] == m[Alias(key)])
  {
    AliasesDiffer();
    PrefixReservedEffect(m);
    var p := PrefixReserved(m);
    var r := Prefixed(m, showCaller, callerInfo);
    if showCaller {
      AliasIfPresentEffect(p, CallerKey);
    }
    forall key | key in ReservedKeys && key !in m
      ensures key !in r && (Alias(key) in r <==> Alias(key) in m) &&
        (Alias(key) in m ==> r[Alias(key)] == m[Alias(key)])
    {
      assert key !in AliasesOf(m) && Alias(key) !in AliasesOf(m);
      assert key !in p && (Alias(key) in p <==> Alias(key) in m);
    }
  }

  /** Without callers shown, nothing changes but the aliases of the reserved keys
      present: in particular no `caller` key is added or altered. */
  lemma OnlyAliasesChange(m: FieldMap, callerInfo: string)
    ensures var r := Prefixed(m, false, callerInfo);
      r.Keys == m.Keys + AliasesOf(m)
    ensures var r := Prefixed(m, false, callerInfo);
      forall k | k in m && k !in AliasesOf(m) :: r[k] == m[k]
    ensures var r := Prefixed(m, false, callerInfo);
      AliasesOf(m) <= {"fields.time", "fields.msg", "fields.level"} &&
      (CallerKey in r <==> CallerKey in m) && (CallerKey in m ==> r[CallerKey] == m[CallerKey])
  {
    AliasesDiffer();
    PrefixReservedEffect(m);
  }

  /** With callers shown, `caller` holds the resolved location, an earlier `caller`
      value moves to `fields.caller` (which is otherwise untouched), and every key
      other than these and the reserved aliases keeps its value. */
  lemma CallerStored(m: FieldMap, callerInfo: string)
    ensures var r := Prefixed(m, true, callerInfo);
      CallerKey in r && r[CallerKey] == Str(callerInfo)
    ensures var r := Prefixed(m, true, callerInfo);
      CallerKey in m ==> Alias(CallerKey) in r && r[Alias(CallerKey)] == m[CallerKey]
    ensures var r := Prefixed(m, true, callerInfo);
      CallerKey !in m ==>
        (Alias(CallerKey) in r <==> Alias(CallerKey) in m) &&
        (Alias(CallerKey) in m ==> r[Alias(CallerKey)] == m[Alias(CallerKey)])
    ensures var r := Prefixed(m, true, callerInfo);
      r.Keys == m.Keys + AliasesOf(m) + {CallerKey} + (if CallerKey in m then {Alias(CallerKey)} else {})
    ensures var r := Prefixed(m, true, callerInfo);
      forall k | k in m && k !in AliasesOf(m) && k != CallerKey && k != Alias(CallerKey) :: r[k] == m[k]
  {
    AliasesDiffer();
    PrefixReservedEffect(m);
    AliasIfPresentEffect(PrefixReserved(m), CallerKey);
  }

  /** Without callers shown, prefixing twice gives what prefixing once gives: the
      aliases already hold the reserved keys' values. */
  lemma PrefixIdempotent(m: FieldMap, callerInfo: string, callerInfo': string)
    ensures Prefixed(Prefixed(m, false, callerInfo), false, callerInfo') == Prefixed(m, false, callerInfo)
  {
    AliasesDiffer();
    var r := Prefixed(m, false, callerInfo);
    var r2 := Prefixed(r, false, callerInfo');
    OnlyAliasesChange(m, callerInfo);
    OnlyAliasesChange(r, callerInfo');
    ReservedKeysAliased(m, false, callerInfo);
    ReservedKeysAliased(r, false, callerInfo');
    AbsentKeysNotAliased(m, false, callerInfo);
    AbsentKeysNotAliased(r, false, callerInfo');
    assert AliasesOf(r) == AliasesOf(m);
    assert r2.Keys == r.Keys;
    forall k | k in r ensures r2[k] == r[k] {
    }
  }

  /** A field literally named `fields.<key>` is overwritten when `<key>` is present:
      the aliasing protects the reserved key's value, not an earlier alias. */
  lemma AliasOverwritesEarlierAlias(m: FieldMap, showCaller: bool, callerInfo: string, key: string)
    requires key in ReservedKeys && key in m && Alias(key) in m
    ensures var r := Prefixed(m, showCaller, callerInfo);
      Alias(key) in r && r[Alias(key)] == m[key]
    ensures m[Alias(key)] != m[key] ==> Prefixed(m, showCaller, callerInfo)[Alias(key)] != m[Alias(key)]
  {
    ReservedKeysAliased(m, showCaller, callerInfo);
  }

  /** For example, `{time: 1, fields.time: 2}` becomes `{time: 1, fields.time: 1}`. */
  lemma AliasOverwriteExample()
    ensures var m := map["time" := Int(1), "fields.time" := Int(2)];
      Prefixed(m, false, "") == map["time" := Int(1), "fields.time" := Int(1)]
  {
    var m := map["time" := Int(1), "fields.time" := Int(2)];
    assert Alias("time") == "fields.time";
    assert "msg" !in m && "level" !in m;
  }

  /** The field map of one log entry, updated in place while it is formatted. */
  class Fields {
    var data: FieldMap

    constructor (data: FieldMap)
      ensures this.data == data
    {
      this.data := data;
    }

    /** `prefixFieldClashes(data, showCaller, depth)`, where `stack` is the call stack
        at the point where the caller is resolved. */
    method PrefixFieldClashes(showCaller: bool, depth: int, stack: seq<Frame>)
      modifies this
      ensures data == Prefixed(old(data), showCaller, ResolveCaller(stack, depth))
    {
      AliasesDiffer();
      if "time" in data {
        data := data["fields.time" := data["time"]];
      }
      if "msg" in data {
        data := data["fields.msg" := data["msg"]];
      }
      if "level" in data {
        data := data["fields.level" := data["level"]];
      }

      if showCaller {
        if "caller" in data {
          data := data["fields.caller" := data["caller"]];
        }
        var str, exhausted;
        ghost var tests, lookups;
        str, exhausted, tests, lookups := GetCaller(stack, depth);
        data := data["caller" := Str(str)];
      }
    }
  }

}
