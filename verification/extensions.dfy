/** Which files the transform leaves untouched: the `ignore` globs, JSON files, and the
    extension list assembled from the `exts` and `x` options. */
module Extensions {
  import opened Wrappers
  import opened Strings
  import opened Values
  import opened Paths

  /** One entry of the extension list with a leading `.` ensured. */
  function Normalise(d: string): (r: string)
    ensures |r| > 0 && r[0] == '.'
    ensures EndsWith(r, d) && |d| <= |r| <= |d| + 1
    ensures |r| == |d| <==> |d| > 0 && d[0] == '.'
  {
    if |d| > 0 && d[0] == '.' then d else "." + d
  }

  /** Normalising an already normalised entry changes nothing. */
  lemma NormaliseIdempotent(d: string)
    ensures Normalise(Normalise(d)) == Normalise(d)
  {
  }

  /** `.map(...)` over the entries: each entry normalised, in its original position. */
  function NormaliseAll(ds: seq<string>): (r: seq<string>)
    ensures |r| == |ds|
    ensures forall i :: 0 <= i < |ds| ==> r[i] == Normalise(ds[i])
  {
    if ds == [] then [] else [Normalise(ds[0])] + NormaliseAll(ds[1..])
  }

  /** Normalisation distributes over concatenation, so the `exts` entries come first and
      the `x` entries after them, each list keeping its order. */
  lemma NormaliseAllAppend(a: seq<string>, b: seq<string>)
    ensures NormaliseAll(a + b) == NormaliseAll(a) + NormaliseAll(b)
  {
  }

  /** Normalising a normalised list changes nothing. */
  lemma NormaliseAllIdempotent(ds: seq<string>)
    ensures NormaliseAll(NormaliseAll(ds)) == NormaliseAll(ds)
  {
  }

  /** The entries as strings, or the TypeError `d.charAt` raises on the first entry that
      is not a string. */
  function EntryStrings(vs: seq<Value>): (r: Result<seq<string>, Failure>)
    ensures r.Success? <==> forall i :: 0 <= i < |vs| ==> vs[i].Str?
    ensures r.Success? ==> |r.value| == |vs| && forall i :: 0 <= i < |vs| ==> r.value[i] == vs[i].s
    ensures r.Failure? ==> r.error == NotAString
  {
    if vs == [] then Success([])
    else if !vs[0].Str? then Failure(NotAString)
    else
      var rest :- EntryStrings(vs[1..]);
      Success([vs[0].s] + rest)
  }

  /** `[].concat(opts.exts || []).concat(opts.x || [])` */
  function Entries(opts: Record): seq<Value> {
    ListOf(Get(opts, "exts")) + ListOf(Get(opts, "x"))
  }

  /** The normalised extension list built from `opts.exts` and `opts.x`. */
  function ExtensionList(opts: Record): (r: Result<seq<string>, Failure>)
    ensures r.Success? <==> forall i :: 0 <= i < |Entries(opts)| ==> Entries(opts)[i].Str?
    ensures r.Success? ==> |r.value| == |Entries(opts)|
    ensures r.Success? ==> forall i :: 0 <= i < |r.value| ==> Entries(opts)[i].Str? && r.value[i] == Normalise(Entries(opts)[i].s)
    ensures r.Success? ==> forall i :: 0 <= i < |r.value| ==> |r.value[i]| > 0 && r.value[i][0] == '.'
    ensures r.Failure? ==> r.error == NotAString
  {
    var ds :- EntryStrings(Entries(opts));
    Success(NormaliseAll(ds))
  }

  /** The list holds the `exts` entries first and the `x` entries after them, each in its
      original order, every one starting with `.`. */
  lemma ExtensionListOrder(opts: Record)
    requires ExtensionList(opts).Success?
    ensures var r := ExtensionList(opts).value;
      var e := ListOf(Get(opts, "exts")); var x := ListOf(Get(opts, "x"));
      && |r| == |e| + |x|
      && (forall i :: 0 <= i < |e| ==> e[i].Str? && r[i] == Normalise(e[i].s))
      && (forall j :: 0 <= j < |x| ==> x[j].Str? && r[|e| + j] == Normalise(x[j].s))
  {
    SplitEntries(ListOf(Get(opts, "exts")), ListOf(Get(opts, "x")), ExtensionList(opts).value);
  }

  lemma SplitEntries(e: seq<Value>, x: seq<Value>, r: seq<string>)
    requires |r| == |e + x|
    requires forall i :: 0 <= i < |r| ==> (e + x)[i].Str? && r[i] == Normalise((e + x)[i].s)
    ensures forall i :: 0 <= i < |e| ==> e[i].Str? && r[i] == Normalise(e[i].s)
    ensures forall j :: 0 <= j < |x| ==> x[j].Str? && r[|e| + j] == Normalise(x[j].s)
  {
    forall j | 0 <= j < |x|
      ensures x[j].Str? && r[|e| + j] == Normalise(x[j].s)
    {
      assert (e + x)[|e| + j] == x[j];
    }
    forall i | 0 <= i < |e|
      ensures e[i].Str? && r[i] == Normalise(e[i].s)
    {
      assert (e + x)[i] == e[i];
    }
  }

  /** `/\.json$/.test(file)` */
  predicate IsJson(file: string) {
    EndsWith(file, ".json")
  }

  /** `xs.indexOf(e)`: the first position holding `e`, or -1. */
  function IndexOf(xs: seq<string>, e: string): (r: int)
    ensures -1 <= r < |xs|
    ensures r == -1 <==> e !in xs
    ensures r >= 0 ==> xs[r] == e && forall j :: 0 <= j < r ==> xs[j] != e
  {
    if xs == [] then -1
    else if xs[0] == e then 0
    else
      var k := IndexOf(xs[1..], e);
      assert forall j :: 1 <= j < |xs| ==> xs[j] == xs[1..][j - 1];
      if k == -1 then -1 else k + 1
  }

  /** Whether the transform hands the file back unchanged, given the normalised list:
      JSON always, otherwise only when the list is non-empty and lacks the extension. */
  function PassesThrough(file: string, exts: seq<string>): (r: bool)
    ensures IsJson(file) ==> r
    ensures !IsJson(file) ==> (r <==> exts != [] && ExtName(file) !in exts)
  {
    IsJson(file) || (|exts| > 0 && IndexOf(exts, ExtName(file)) == -1)
  }

  /** A JSON file is never minified, whatever the list holds. */
  lemma JsonAlwaysPassesThrough(file: string, exts: seq<string>)
    requires IsJson(file)
    ensures PassesThrough(file, exts)
  {
  }

  /** An entry written with or without its leading dot matches an extension alike. */
  lemma NormaliseMatchesExtension(d: string, e: string)
    requires e != "" && e[0] == '.' && '.' !in e[1..]
    ensures Normalise(d) == e <==> d == e || "." + d == e
  {
    if "." + d == e {
      assert d == e[1..];
      if d != "" {
        assert d[0] in e[1..];
      }
    }
  }

  /** With no list, only JSON files pass through; with a list, a non-JSON file passes
      through exactly when its extension is not listed (in either spelling). */
  lemma PassesThroughIffUnlisted(file: string, ds: seq<string>)
    requires !IsJson(file)
    ensures ds == [] ==> !PassesThrough(file, NormaliseAll(ds))
    ensures ds != [] && ExtName(file) != "" ==>
      (PassesThrough(file, NormaliseAll(ds)) <==>
       forall i :: 0 <= i < |ds| ==> ds[i] != ExtName(file) && "." + ds[i] != ExtName(file))
  {
    var e := ExtName(file);
    var ns := NormaliseAll(ds);
    if ds != [] && e != "" {
      forall i | 0 <= i < |ds|
        ensures ns[i] == e <==> ds[i] == e || "." + ds[i] == e
      {
        NormaliseMatchesExtension(ds[i], e);
      }
      assert e in ns <==> exists i :: 0 <= i < |ds| && ns[i] == e;
    }
  }

  /** A file with no extension is minified only when the list is empty. */
  lemma NoExtensionNeedsEmptyList(file: string, ds: seq<string>)
    requires !IsJson(file) && ExtName(file) == ""
    ensures PassesThrough(file, NormaliseAll(ds)) <==> ds != []
  {
    if ds != [] {
      assert NormaliseAll(ds)[0] != "";
    }
  }

  /** `list.some(pattern => minimatch(pattern).match(file))`, with the glob matcher given. */
  function AnyMatches(patterns: seq<Value>, file: string, matches: (Value, string) -> bool): (r: bool)
    ensures r <==> exists i :: 0 <= i < |patterns| && matches(patterns[i], file)
  {
    if patterns == [] then false
    else if matches(patterns[0], file) then true
    else
      assert forall i :: 1 <= i < |patterns| ==> patterns[i] == patterns[1..][i - 1];
      AnyMatches(patterns[1..], file, matches)
  }

  /** `ignore(file, opts.ignore)`: a falsy list ignores nothing; a single pattern stands for
      a list of one. */
  function Ignored(file: string, list: Value, matches: (Value, string) -> bool): (r: bool)
    ensures !Truthy(list) ==> !r
    ensures list.Arr? ==> (r <==> exists i :: 0 <= i < |list.items| && matches(list.items[i], file))
    ensures Truthy(list) && !list.Arr? ==> (r <==> matches(list, file))
  {
    AnyMatches(ListOf(list), file, matches)
  }
}
