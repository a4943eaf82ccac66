/** The option records the transform reads and the one it hands to the minifier. */
module Options {
  import opened Wrappers
  import opened Values

  /** Keys only the bundler understands, removed before the minifier sees the record. */
  const BundlerKeys: set<string> := {"global", "exts", "x", "_", "_flags"}

  /** Command-line short keys and the minifier option each one stands for. */
  const ArgvPairs: seq<(string, string)> :=
    [("c", "compress"), ("m", "mangle"), ("p", "parse"), ("b", "beautify"), ("o", "output"), ("d", "define")]

  const ArgvKeys: set<string> :=
    {"c", "compress", "m", "mangle", "p", "parse", "b", "beautify", "o", "output", "d", "define"}

  /** No short key is a default or a bundler key, so each survives the merge. */
  lemma ShortKeyIsFree(file: string, i: nat)
    requires i < |ArgvPairs|
    ensures ArgvPairs[i].0 !in Defaults(file) && ArgvPairs[i].0 !in BundlerKeys
  {
    assert |ArgvPairs[i].0| == 1;
  }

  /** The defaults every minifier record starts from. */
  function Defaults(file: string): Record {
    map["compress" := Bool(true), "mangle" := Bool(true),
        "sourceMap" := Obj(map["filename" := Str(file)])]
  }

  /** Shallow `extend(target, src)`: every property of `src` whose value is not `undefined`
      overwrites the target's; nested objects are not merged. */
  function Extend(target: Record, src: Record): (r: Record)
    ensures r.Keys == target.Keys + (set k | k in src && src[k] != Undefined)
    ensures forall k :: k in src && src[k] != Undefined ==> r[k] == src[k]
    ensures forall k :: k in target && (k !in src || src[k] == Undefined) ==> r[k] == target[k]
  {
    map k | k in target.Keys + src.Keys && (k in target || src[k] != Undefined)
      :: if k in src && src[k] != Undefined then src[k] else target[k]
  }

  /** Extending twice with the same source changes nothing more. */
  lemma ExtendIdempotent(target: Record, src: Record)
    ensures Extend(Extend(target, src), src) == Extend(target, src)
  {
  }

  /** The caller's value for `k` where the caller gave one other than `undefined`,
      `default` otherwise. */
  function UserOr(opts: Record, k: string, default: Value): Value {
    if Get(opts, k) != Undefined then opts[k] else default
  }

  /** `extend({}, defaults, opts)`: every default and every key the caller gave a value;
      the caller's value wins, and a default shows through only where the caller gave none. */
  function Merged(file: string, opts: Record): (m: Record)
    ensures forall k :: k in m <==> k in Defaults(file) || Get(opts, k) != Undefined
    ensures forall k :: Get(opts, k) != Undefined ==> m[k] == opts[k]
    ensures m["compress"] == UserOr(opts, "compress", Bool(true))
    ensures m["mangle"] == UserOr(opts, "mangle", Bool(true))
    ensures m["sourceMap"] == UserOr(opts, "sourceMap", Obj(map["filename" := Str(file)]))
  {
    var d := Defaults(file);
    assert Extend(map[], d) == d;
    Extend(Extend(map[], d), opts)
  }

  /** `'_flags' in opts ? opts._flags.debug : true`; reading `debug` off a `_flags` that
      is `null` or `undefined` throws. */
  function DebugFlag(opts: Record): (r: Result<Value, Failure>)
    ensures "_flags" !in opts ==> r == Success(Bool(true))
    ensures "_flags" in opts && opts["_flags"].Obj? ==> r == Success(Get(opts["_flags"].fields, "debug"))
    ensures "_flags" in opts && !opts["_flags"].Obj? && r.Success? ==> r.value == Undefined
    ensures r.Failure? <==> "_flags" in opts && (opts["_flags"].Null? || opts["_flags"].Undefined?)
  {
    if "_flags" !in opts then Success(Bool(true))
    else match opts["_flags"]
      case Undefined => Failure(PropertyOfNullish("debug"))
      case Null => Failure(PropertyOfNullish("debug"))
      case Obj(f) => Success(Get(f, "debug"))
      case _ => Success(Undefined)
  }

  /** `opts.sourceMap !== false && (debug || matched)`, as a truth value. */
  predicate SourceMapsEnabled(opts: Record, debug: Value, matched: bool) {
    Get(opts, "sourceMap") != Bool(false) && (Truthy(debug) || matched)
  }

  /** One step of `mapArgv`: a truthy short key moves to its long key. */
  function MoveIfTruthy(o: Record, short: string, long: string): (r: Record)
    requires short != long
    ensures Truthy(Get(o, short)) ==> short !in r && long in r && r[long] == o[short]
    ensures !Truthy(Get(o, short)) ==> r == o
    ensures forall k :: k != short && k != long ==> SameAt(o, r, k)
  {
    if Truthy(Get(o, short)) then o[long := o[short]] - {short} else o
  }

  /** The record of a truthy short key has been moved, a falsy one left where it was. */
  predicate Remapped(before: Record, after: Record, short: string, long: string) {
    && (Truthy(Get(before, short)) ==> short !in after && long in after && after[long] == before[short])
    && (!Truthy(Get(before, short)) ==> SameAt(before, after, short) && SameAt(before, after, long))
  }

  /** Every key a table of pairs mentions. */
  function KeysOf(ps: seq<(string, string)>): set<string> {
    if ps == [] then {} else {ps[0].0, ps[0].1} + KeysOf(ps[1..])
  }

  /** No key appears twice in the table, as a short or as a long key. */
  predicate DistinctKeys(ps: seq<(string, string)>) {
    ps == [] ||
    (&& ps[0].0 != ps[0].1
     && ps[0].0 !in KeysOf(ps[1..])
     && ps[0].1 !in KeysOf(ps[1..])
     && DistinctKeys(ps[1..]))
  }

  /** The moves of `mapArgv`, in table order. */
  function Remap(o: Record, ps: seq<(string, string)>): Record
    requires DistinctKeys(ps)
    decreases |ps|
  {
    if ps == [] then o else Remap(MoveIfTruthy(o, ps[0].0, ps[0].1), ps[1..])
  }

  /** Because no two pairs share a key, each pair is remapped as if it were alone, and
      keys outside the table are untouched. */
  lemma {:induction false} RemapMovesEachPair(o: Record, ps: seq<(string, string)>)
    requires DistinctKeys(ps)
    ensures forall i :: 0 <= i < |ps| ==> Remapped(o, Remap(o, ps), ps[i].0, ps[i].1)
    ensures forall k :: k !in KeysOf(ps) ==> SameAt(o, Remap(o, ps), k)
    decreases |ps|
  {
    if ps != [] {
      var o' := MoveIfTruthy(o, ps[0].0, ps[0].1);
      var r := Remap(o', ps[1..]);
      assert r == Remap(o, ps);
      RemapMovesEachPair(o', ps[1..]);
      assert Remapped(o, r, ps[0].0, ps[0].1) by {
        assert SameAt(o', r, ps[0].0) && SameAt(o', r, ps[0].1);
      }
      forall i | 1 <= i < |ps|
        ensures Remapped(o, r, ps[i].0, ps[i].1)
      {
        assert ps[i] == ps[1..][i - 1];
        KeysOfContains(ps[1..], i - 1);
        assert Remapped(o', r, ps[i].0, ps[i].1);
        assert SameAt(o, o', ps[i].0) && SameAt(o, o', ps[i].1);
      }
      forall k | k !in KeysOf(ps)
        ensures SameAt(o, r, k)
      {
        assert SameAt(o, o', k) && SameAt(o', r, k);
      }
    }
  }

  lemma {:induction false} KeysOfContains(ps: seq<(string, string)>, i: nat)
    requires i < |ps|
    ensures ps[i].0 in KeysOf(ps) && ps[i].1 in KeysOf(ps)
  {
    if i > 0 {
      KeysOfContains(ps[1..], i - 1);
    }
  }

  /** The six pairs of `mapArgv` share no key. */
  lemma ArgvTableDistinct()
    ensures DistinctKeys(ArgvPairs) && KeysOf(ArgvPairs) == ArgvKeys
  {
    var ps := ArgvPairs;
    assert KeysOf(ps[5..]) == {"d", "define"};
    assert KeysOf(ps[4..]) == {"o", "output", "d", "define"};
    assert KeysOf(ps[3..]) == {"b", "beautify", "o", "output", "d", "define"};
    assert KeysOf(ps[2..]) == {"p", "parse", "b", "beautify", "o", "output", "d", "define"};
    assert KeysOf(ps[1..]) == {"m", "mangle", "p", "parse", "b", "beautify", "o", "output", "d", "define"};
  }

  /** `mapArgv(opts)`: moves each truthy command-line short key to its long key and drops
      the positional arguments `_`. */
  function MapArgv(opts: Record): (r: Record)
    ensures forall i :: 0 <= i < |ArgvPairs| ==> Remapped(opts, r, ArgvPairs[i].0, ArgvPairs[i].1)
    ensures "_" !in r
    ensures forall k :: k !in ArgvKeys && k != "_" ==> SameAt(opts, r, k)
  {
    ArgvTableDistinct();
    MapArgvMoves(opts);
    Remap(opts, ArgvPairs) - {"_"}
  }

  lemma MapArgvMoves(opts: Record)
    requires DistinctKeys(ArgvPairs) && KeysOf(ArgvPairs) == ArgvKeys
    ensures var r := Remap(opts, ArgvPairs) - {"_"};
      && (forall i :: 0 <= i < |ArgvPairs| ==> Remapped(opts, r, ArgvPairs[i].0, ArgvPairs[i].1))
      && (forall k :: k !in ArgvKeys && k != "_" ==> SameAt(opts, r, k))
  {
    var moved := Remap(opts, ArgvPairs);
    var r := moved - {"_"};
    RemapMovesEachPair(opts, ArgvPairs);
    forall i | 0 <= i < |ArgvPairs|
      ensures Remapped(opts, r, ArgvPairs[i].0, ArgvPairs[i].1)
    {
      KeysOfContains(ArgvPairs, i);
      assert Remapped(opts, moved, ArgvPairs[i].0, ArgvPairs[i].1);
      assert SameAt(moved, r, ArgvPairs[i].0) && SameAt(moved, r, ArgvPairs[i].1);
    }
    forall k | k !in ArgvKeys && k != "_"
      ensures SameAt(opts, r, k)
    {
      assert SameAt(opts, moved, k);
    }
  }

  /** A remapped record has nothing left to remap. */
  lemma MapArgvIdempotent(opts: Record)
    ensures MapArgv(MapArgv(opts)) == MapArgv(opts)
  {
    var once := MapArgv(opts);
    var twice := MapArgv(once);
    forall i | 0 <= i < |ArgvPairs|
      ensures SameAt(once, twice, ArgvPairs[i].0) && SameAt(once, twice, ArgvPairs[i].1)
    {
      assert Remapped(opts, once, ArgvPairs[i].0, ArgvPairs[i].1);
      assert Remapped(once, twice, ArgvPairs[i].0, ArgvPairs[i].1);
    }
    forall k | k in ArgvKeys
      ensures SameAt(once, twice, k)
    {
      ArgvTableDistinct();
      KeysOfMember(ArgvPairs, k);
    }
    SameEverywhere(once, twice);
  }

  lemma {:induction false} KeysOfMember(ps: seq<(string, string)>, k: string)
    requires k in KeysOf(ps)
    ensures exists i :: 0 <= i < |ps| && (ps[i].0 == k || ps[i].1 == k)
    decreases |ps|
  {
    if k != ps[0].0 && k != ps[0].1 {
      KeysOfMember(ps[1..], k);
      var i :| 0 <= i < |ps[1..]| && (ps[1..][i].0 == k || ps[1..][i].1 == k);
      assert ps[i + 1] == ps[1..][i];
    }
  }

  /** The merge without the bundler's keys. */
  function Stripped(file: string, opts: Record): (r: Record)
    ensures BundlerKeys !! r.Keys
    ensures "compress" in r && "mangle" in r && "sourceMap" in r
    ensures forall k :: k in r <==> k !in BundlerKeys && (k in Defaults(file) || Get(opts, k) != Undefined)
    ensures forall k :: k in r && k !in Defaults(file) ==> r[k] == Get(opts, k)
    ensures r["compress"] == UserOr(opts, "compress", Bool(true))
    ensures r["mangle"] == UserOr(opts, "mangle", Bool(true))
    ensures r["sourceMap"] == UserOr(opts, "sourceMap", Obj(map["filename" := Str(file)]))
  {
    Merged(file, opts) - BundlerKeys
  }

  /** `typeof compress === 'object'` drops its `_` key; for `null` the delete throws. */
  function CleanCompress(o: Record): (r: Result<Record, Failure>)
    ensures r.Failure? <==> Get(o, "compress").Null?
    ensures r.Success? ==> r.value.Keys == o.Keys
    ensures r.Success? ==> forall k :: k in o && k != "compress" ==> r.value[k] == o[k]
    ensures r.Success? && Get(o, "compress").Obj? ==>
      r.value["compress"] == Obj(o["compress"].fields - {"_"})
    ensures r.Success? && "compress" in o && !o["compress"].Obj? ==> r.value["compress"] == o["compress"]
  {
    match Get(o, "compress")
    case Null => Failure(PropertyOfNullish("_"))
    case Obj(f) => Success(o["compress" := Obj(f - {"_"})])
    case _ => Success(o)
  }

  /** With maps enabled, `sourceMap.url` is set and, for an inline input map, `content` is
      set to that map decoded; `decode` stands for base64 decoding followed by JSON parsing
      and fails on unreadable input. */
  function AttachSourceMap(o: Record, enabled: bool, inline: Option<string>,
                           decode: string -> Option<Value>): (r: Result<Record, Failure>)
    requires "sourceMap" in o
    ensures !enabled ==> r == Success(o)
    ensures r.Failure? <==> enabled && (o["sourceMap"].Null? || o["sourceMap"].Undefined?
                                        || (inline.Some? && decode(inline.value).None?))
    ensures r.Success? ==> r.value.Keys == o.Keys
    ensures r.Success? ==> forall k :: k in o && k != "sourceMap" ==> r.value[k] == o[k]
    ensures r.Success? && enabled && o["sourceMap"].Obj? ==>
      && r.value["sourceMap"].Obj?
      && Get(r.value["sourceMap"].fields, "url") == Str("out.js.map")
      && (inline.Some? ==>
            r.value["sourceMap"].fields == o["sourceMap"].fields["url" := Str("out.js.map")]["content" := decode(inline.value).value])
      && (inline.None? ==> r.value["sourceMap"].fields == o["sourceMap"].fields["url" := Str("out.js.map")])
    ensures r.Success? && !o["sourceMap"].Obj? ==> r.value == o
  {
    if !enabled then Success(o) else
    var withUrl :- SetProp(o["sourceMap"], "url", Str("out.js.map"));
    if inline.None? then Success(o["sourceMap" := withUrl]) else
    match decode(inline.value)
    case None => Failure(UnreadableInlineMap)
    case Some(content) =>
      var withContent :- SetProp(withUrl, "content", content);
      Success(o["sourceMap" := withContent])
  }

  /** The record handed to the minifier: defaults merged with the caller's options, bundler
      keys removed, `compress._` dropped, and the source-map settings attached. */
  function MinifierOptions(file: string, opts: Record, enabled: bool, inline: Option<string>,
                           decode: string -> Option<Value>): (r: Result<Record, Failure>)
    ensures var compress := UserOr(opts, "compress", Bool(true));
      var sourceMap := UserOr(opts, "sourceMap", Obj(map["filename" := Str(file)]));
      r.Failure? <==> compress.Null?
                      || (enabled && (sourceMap.Null? || (inline.Some? && decode(inline.value).None?)))
    ensures r.Success? ==> BundlerKeys !! r.value.Keys
    ensures r.Success? ==> "compress" in r.value && "mangle" in r.value && "sourceMap" in r.value
    ensures r.Success? ==> forall k :: k in r.value <==> k !in BundlerKeys && (k in Defaults(file) || Get(opts, k) != Undefined)
    ensures r.Success? ==> forall k :: k in r.value && k !in Defaults(file) ==> r.value[k] == Get(opts, k)
    ensures r.Success? ==> r.value["mangle"] == UserOr(opts, "mangle", Bool(true))
    ensures r.Success? ==> var compress := UserOr(opts, "compress", Bool(true));
      r.value["compress"] == if compress.Obj? then Obj(compress.fields - {"_"}) else compress
    ensures r.Success? ==> var sourceMap := UserOr(opts, "sourceMap", Obj(map["filename" := Str(file)]));
      && (!enabled || !sourceMap.Obj? ==> r.value["sourceMap"] == sourceMap)
      && (enabled && sourceMap.Obj? ==>
          && r.value["sourceMap"].Obj?
          && Get(r.value["sourceMap"].fields, "url") == Str("out.js.map")
          && (inline.Some? ==>
                r.value["sourceMap"].fields == sourceMap.fields["url" := Str("out.js.map")]["content" := decode(inline.value).value])
          && (inline.None? ==> r.value["sourceMap"].fields == sourceMap.fields["url" := Str("out.js.map")]))
  {
    var cleaned :- CleanCompress(Stripped(file, opts));
    AttachSourceMap(cleaned, enabled, inline, decode)
  }
}
