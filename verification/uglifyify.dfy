/** The transform itself: the decision taken when a file is first offered, and the work
    done once its whole source has been buffered. */
module Uglifyify {
  import opened Wrappers
  import opened Values
  import opened Extensions
  import opened InlineMap
  import opened OutputComment
  import opened Options

  /** What `uglifyify(file, opts)` returns: a stream that passes the file through
      unchanged, or one that minifies it with the given `debug` flag. */
  datatype Route = PassThrough | Minify(debug: Value)

  /** `uglifyify(file, opts)`, up to the stream it returns. A failure here is thrown to the
      bundler synchronously. `matches` stands for `minimatch(pattern).match(file)`. */
  function Setup(file: string, opts: Record, matches: (Value, string) -> bool): (r: Result<Route, Failure>)
    ensures r.Failure? <==>
      DebugFlag(opts).Failure? || (!Ignored(file, Get(opts, "ignore"), matches) && ExtensionList(opts).Failure?)
    ensures r.Success? && r.value.Minify? ==>
      && !Ignored(file, Get(opts, "ignore"), matches)
      && !PassesThrough(file, ExtensionList(opts).value)
      && r.value.debug == DebugFlag(opts).value
    ensures r.Success? && r.value.PassThrough? ==>
      Ignored(file, Get(opts, "ignore"), matches) || PassesThrough(file, ExtensionList(opts).value)
  {
    var debug :- DebugFlag(opts);
    if Ignored(file, Get(opts, "ignore"), matches) then Success(PassThrough) else
    var exts :- ExtensionList(opts);
    if PassesThrough(file, exts) then Success(PassThrough) else Success(Minify(debug))
  }

  /** A JSON file is never minified: the transform either passes it through or throws
      before looking at it. */
  lemma JsonNeverMinified(file: string, opts: Record, matches: (Value, string) -> bool)
    requires IsJson(file)
    ensures Setup(file, opts, matches).Success? ==> Setup(file, opts, matches).value.PassThrough?
  {
    if Setup(file, opts, matches).Success? && !Ignored(file, Get(opts, "ignore"), matches) {
      JsonAlwaysPassesThrough(file, ExtensionList(opts).value);
    }
  }

  /** Without `_flags` the debug flag is on, so maps are produced unless `sourceMap` is
      `false`; with `_flags` it is whatever `_flags.debug` holds. */
  lemma DebugFlagDecision(file: string, opts: Record, matches: (Value, string) -> bool)
    requires Setup(file, opts, matches).Success? && Setup(file, opts, matches).value.Minify?
    ensures var debug := Setup(file, opts, matches).value.debug;
      && ("_flags" !in opts ==> debug == Bool(true))
      && ("_flags" in opts && opts["_flags"].Obj? ==> debug == Get(opts["_flags"].fields, "debug"))
      && ("_flags" in opts && !opts["_flags"].Obj? ==> debug == Undefined)
  {
  }

  /** The state once the buffered source has been examined: the record handed to the
      minifier, the caller's record after `mapArgv`, whether maps are produced, and the
      inline map found at the end of the source. */
  datatype Prepared = Prepared(
    minifierOptions: Record,
    callerOptions: Record,
    sourceMaps: bool,
    inline: Option<InlineMatch>)

  /** Lines 41-79 of `ready()`: everything before the minifier is called. `decode` stands
      for base64 decoding followed by `convert.fromJSON`. */
  function Prepare(file: string, opts: Record, buffer: string, debug: Value,
                   decode: string -> Option<Value>): (r: Result<Prepared, Failure>)
    ensures r.Success? ==> r.value.inline == Recognise(buffer)
    ensures r.Success? ==> (r.value.sourceMaps <==>
      Get(opts, "sourceMap") != Bool(false) && (Truthy(debug) || Recognise(buffer).Some?))
    ensures r.Success? ==> r.value.callerOptions == MapArgv(opts)
    ensures r.Success? ==> BundlerKeys !! r.value.minifierOptions.Keys
    ensures r.Success? ==> "sourceMap" in r.value.minifierOptions
    ensures var enabled := SourceMapsEnabled(opts, debug, Recognise(buffer).Some?);
      r.Failure? <==>
        || UserOr(opts, "compress", Bool(true)).Null?
        || (enabled && (|| UserOr(opts, "sourceMap", Obj(map["filename" := Str(file)])).Null?
                        || (Recognise(buffer).Some? && decode(Recognise(buffer).value.payload).None?)))
    ensures r.Success? && r.value.sourceMaps && UserOr(opts, "sourceMap", Obj(map["filename" := Str(file)])).Obj? ==>
      && r.value.minifierOptions["sourceMap"].Obj?
      && Get(r.value.minifierOptions["sourceMap"].fields, "url") == Str("out.js.map")
  {
    var matched := Recognise(buffer);
    var enabled := SourceMapsEnabled(opts, debug, matched.Some?);
    var inline := if enabled && matched.Some? then Some(matched.value.payload) else None;
    var options :- MinifierOptions(file, opts, enabled, inline, decode);
    Success(Prepared(options, MapArgv(opts), enabled, matched))
  }

  /** `ready()`: the code emitted for a buffered file is the minifier's output without the
      `out.js.map` comment the minifier appends. `minify` stands for `ujs.minify`,
      returning the code or the message of its error. */
  function Ready(file: string, opts: Record, buffer: string, debug: Value,
                 decode: string -> Option<Value>,
                 minify: (string, Record) -> Result<string, string>): (r: Result<string, Failure>)
    ensures Prepare(file, opts, buffer, debug, decode).Failure? ==> r.Failure?
    ensures Prepare(file, opts, buffer, debug, decode).Success? ==>
      var code := minify(buffer, Prepare(file, opts, buffer, debug, decode).value.minifierOptions);
      && (code.Success? <==> r.Success?)
      && (code.Success? ==> r.value == Strip(code.value) && StrippedFrom(code.value, r.value))
      && (code.Failure? ==> r.error == MinifierFailed(code.error))
  {
    var prepared :- Prepare(file, opts, buffer, debug, decode);
    match minify(buffer, prepared.minifierOptions)
    case Failure(message) => Failure(MinifierFailed(message))
    case Success(code) => Success(Strip(code))
  }

  /** The comment the minifier appends is removed from the emitted code, and code without
      it is emitted as the minifier produced it. */
  lemma ReadyDropsMinifierComment(file: string, opts: Record, buffer: string, debug: Value,
                                  decode: string -> Option<Value>,
                                  minify: (string, Record) -> Result<string, string>, code: string, c: string)
    ensures && Prepare(file, opts, buffer, debug, decode).Success?
            && minify(buffer, Prepare(file, opts, buffer, debug, decode).value.minifierOptions) == Success(code + c)
            && IsComment(c)
            ==> Ready(file, opts, buffer, debug, decode, minify) == Success(code)
    ensures && Prepare(file, opts, buffer, debug, decode).Success?
            && minify(buffer, Prepare(file, opts, buffer, debug, decode).value.minifierOptions) == Success(code)
            && (forall x, y :: code == x + y ==> !IsComment(y))
            ==> Ready(file, opts, buffer, debug, decode, minify) == Success(code)
  {
    if IsComment(c) {
      StripAppended(code, c);
    }
    if forall x, y :: code == x + y ==> !IsComment(y) {
      StripWithoutComment(code);
    }
  }

  /** `mapArgv` rewrites the caller's record only after the minifier's copy has been taken:
      a truthy short key reaches the minifier unchanged, while the caller's record holds
      its value under the long key. */
  lemma ShortKeysReachMinifier(file: string, opts: Record, buffer: string, debug: Value,
                               decode: string -> Option<Value>, i: nat)
    requires i < |ArgvPairs| && Truthy(Get(opts, ArgvPairs[i].0))
    ensures Prepare(file, opts, buffer, debug, decode).Success? ==>
      var p := Prepare(file, opts, buffer, debug, decode).value;
      && ArgvPairs[i].0 in p.minifierOptions && p.minifierOptions[ArgvPairs[i].0] == opts[ArgvPairs[i].0]
      && ArgvPairs[i].0 !in p.callerOptions && p.callerOptions[ArgvPairs[i].1] == opts[ArgvPairs[i].0]
  {
    var matched := Recognise(buffer);
    var enabled := SourceMapsEnabled(opts, debug, matched.Some?);
    var inline := if enabled && matched.Some? then Some(matched.value.payload) else None;
    var options := MinifierOptions(file, opts, enabled, inline, decode);
    if options.Success? {
      assert Prepare(file, opts, buffer, debug, decode) == Success(Prepared(options.value, MapArgv(opts), enabled, matched));
      var short := ArgvPairs[i].0;
      ShortKeyIsFree(file, i);
      assert short in options.value;
      assert Remapped(opts, MapArgv(opts), short, ArgvPairs[i].1);
    }
  }

  /** `sourceMap: false` switches maps off, whatever the debug flag or the source says, and
      reaches the minifier as given. */
  lemma SourceMapFalseDisables(file: string, opts: Record, buffer: string, debug: Value,
                               decode: string -> Option<Value>)
    requires Get(opts, "sourceMap") == Bool(false)
    ensures Prepare(file, opts, buffer, debug, decode).Success? <==> !Get(opts, "compress").Null?
    ensures var r := Prepare(file, opts, buffer, debug, decode);
      r.Success? ==> !r.value.sourceMaps && r.value.minifierOptions["sourceMap"] == Bool(false)
  {
  }

  /** An inline map at the end of the source turns maps on even when the debug flag is off,
      and its decoded payload becomes the minifier's input map, beside the fields of the
      `sourceMap` object in use and `url: 'out.js.map'`. */
  lemma InlineMapFeedsMinifier(file: string, opts: Record, code: string, m: InlineMatch,
                               debug: Value, decode: string -> Option<Value>)
    requires WellFormed(m)
    requires UserOr(opts, "sourceMap", Obj(map["filename" := Str(file)])).Obj? && !Get(opts, "compress").Null?
    requires decode(m.payload).Some?
    ensures var sourceMap := UserOr(opts, "sourceMap", Obj(map["filename" := Str(file)]));
      var r := Prepare(file, opts, code + Render(m), debug, decode);
      && r.Success?
      && r.value.sourceMaps
      && r.value.inline == Some(m)
      && r.value.minifierOptions["sourceMap"]
         == Obj(sourceMap.fields["url" := Str("out.js.map")]["content" := decode(m.payload).value])
  {
    RecogniseRender(code, m);
    var buffer := code + Render(m);
    assert Recognise(buffer) == Some(m);
    var sourceMap := UserOr(opts, "sourceMap", Obj(map["filename" := Str(file)]));
    assert Get(opts, "sourceMap") != Bool(false);
    var enabled := SourceMapsEnabled(opts, debug, true);
    assert enabled;
    var options := MinifierOptions(file, opts, true, Some(m.payload), decode);
    assert options.Success?;
    assert Prepare(file, opts, buffer, debug, decode) == Success(Prepared(options.value, MapArgv(opts), true, Some(m)));
    assert options.value["sourceMap"].fields ==
      sourceMap.fields["url" := Str("out.js.map")]["content" := decode(m.payload).value];
  }

  /** With no inline map and the debug flag on, an object `sourceMap` reaches the minifier
      with its own fields and `url: 'out.js.map'`; by default that is the file name. */
  lemma DefaultSourceMapNamed(file: string, opts: Record, buffer: string, debug: Value,
                              decode: string -> Option<Value>)
    requires Recognise(buffer).None?
    requires UserOr(opts, "sourceMap", Obj(map["filename" := Str(file)])).Obj? && !Get(opts, "compress").Null?
    requires Truthy(debug)
    ensures var sourceMap := UserOr(opts, "sourceMap", Obj(map["filename" := Str(file)]));
      var r := Prepare(file, opts, buffer, debug, decode);
      && r.Success?
      && r.value.sourceMaps
      && r.value.minifierOptions["sourceMap"] == Obj(sourceMap.fields["url" := Str("out.js.map")])
    ensures Get(opts, "sourceMap") == Undefined ==>
      Prepare(file, opts, buffer, debug, decode).value.minifierOptions["sourceMap"]
      == Obj(map["filename" := Str(file), "url" := Str("out.js.map")])
  {
    var sourceMap := UserOr(opts, "sourceMap", Obj(map["filename" := Str(file)]));
    assert Get(opts, "sourceMap") != Bool(false);
    var options := MinifierOptions(file, opts, true, None, decode);
    assert options.Success?;
    assert Prepare(file, opts, buffer, debug, decode) == Success(Prepared(options.value, MapArgv(opts), true, None));
  }
}
