/** What `read_args` does with the command line once argparse has turned it
    into a dictionary: the keys are normalised to space-separated words,
    the options are checked, the derived entries are written in, and the
    result is offered both by key and as attributes. */
module ArgUtils {
  import opened Common

  /** The renderer classes the `renderer` option can select. */
  datatype RendererKind = PlotlyRenderer | MplRenderer

  /** The values argparse produces for the Chaikin3D options, plus the
      renderer class `read_args` stores. */
  datatype ArgValue =
    | Str(s: string)
    | Bool(b: bool)
    | Int(i: int)
    | Real(r: real)
    | Null
    | RendererClass(kind: RendererKind)

  /** Why `read_args` gave up: a missing dictionary entry (KeyError), a
      failed assertion on "order edges" or "output", an "output" that is
      not a string (AttributeError), or an unknown renderer (ArgumentError). */
  datatype ArgError =
    | MissingKey(key: string)
    | InvalidOrderEdges(value: ArgValue)
    | InvalidExtension(path: string)
    | NotText(key: string)
    | UnknownRenderer(value: ArgValue)

  /** Python truthiness of a value. */
  predicate Truthy(v: ArgValue) {
    match v
    case Str(s) => s != []
    case Bool(b) => b
    case Int(i) => i != 0
    case Real(r) => r != 0.0
    case Null => false
    case RendererClass(_) => true
  }

  /** `s` with every `a` replaced by `b` (`str.replace` on one character). */
  function Replace(s: string, a: char, b: char): (r: string)
    ensures |r| == |s|
    ensures forall i | 0 <= i < |s| :: r[i] == if s[i] == a then b else s[i]
  {
    if s == [] then []
    else Replace(s[..|s| - 1], a, b) + [if s[|s| - 1] == a then b else s[|s| - 1]]
  }

  /** A dictionary key as `read_args` rewrites it: `_` and `-` become spaces. */
  function NormalKey(k: string): (r: string)
    ensures |r| == |k| && '_' !in r && '-' !in r
  {
    Replace(Replace(k, '_', ' '), '-', ' ')
  }

  /** The attribute name of a key: spaces become `_`. */
  function AttributeName(k: string): (r: string)
    ensures |r| == |k| && ' ' !in r
  {
    Replace(k, ' ', '_')
  }

  /** A normalised key turned back into an attribute name gives the
      argparse destination it came from, whenever that name has no spaces
      or dashes (argparse's destinations never do): `args.order_edges` is
      `args["order edges"]`. */
  lemma AttributeOfNormalKey(dest: string)
    requires ' ' !in dest && '-' !in dest
    ensures AttributeName(NormalKey(dest)) == dest
  {
    var r := AttributeName(NormalKey(dest));
    forall i | 0 <= i < |dest|
      ensures r[i] == dest[i]
    {
      assert dest[i] != ' ' && dest[i] != '-';
    }
  }

  /** Keys without `_` are told apart by their attribute names. */
  lemma AttributeNameInjective(j: string, k: string)
    requires '_' !in j && '_' !in k && AttributeName(j) == AttributeName(k)
    ensures j == k
  {
    forall i | 0 <= i < |j|
      ensures j[i] == k[i]
    {
      assert AttributeName(j)[i] == AttributeName(k)[i];
      assert j[i] != '_' && k[i] != '_';
    }
  }

  /** A key in normal form: neither `_` nor `-` occurs in it. */
  predicate Plain(k: string) {
    '_' !in k && '-' !in k
  }

  /** Every key of the dictionary is in normal form. */
  predicate NormalForm(m: map<string, ArgValue>) {
    forall k | k in m :: Plain(k)
  }

  /** The dictionary of normalised keys built from the parsed items, in
      their order, a later item overwriting an earlier one whose key
      normalises the same. */
  function NormalKeys(items: seq<(string, ArgValue)>): (r: map<string, ArgValue>)
    ensures NormalForm(r)
  {
    if items == [] then map[]
    else
      var last := items[|items| - 1];
      NormalKeys(items[..|items| - 1])[NormalKey(last.0) := last.1]
  }

  /** Exactly the normalised keys of the items are present. */
  lemma {:induction false} NormalKeysDomain(items: seq<(string, ArgValue)>, k: string)
    ensures k in NormalKeys(items) <==> exists i | 0 <= i < |items| :: NormalKey(items[i].0) == k
  {
    if items != [] {
      var init, last := items[..|items| - 1], items[|items| - 1];
      assert NormalKeys(items) == NormalKeys(init)[NormalKey(last.0) := last.1];
      NormalKeysDomain(init, k);
      if k == NormalKey(last.0) {
        assert NormalKey(items[|items| - 1].0) == k;
      } else if k in NormalKeys(init) {
        var i :| 0 <= i < |init| && NormalKey(init[i].0) == k;
        assert items[i] == init[i];
      } else {
        forall i | 0 <= i < |items|
          ensures NormalKey(items[i].0) != k
        {
          if i < |init| {
            assert items[i] == init[i];
          }
        }
      }
    }
  }

  /** The value kept under a key is that of the last item with that key. */
  lemma {:induction false} NormalKeysLastWins(items: seq<(string, ArgValue)>, i: nat)
    requires i < |items|
    requires forall j | i < j < |items| :: NormalKey(items[j].0) != NormalKey(items[i].0)
    ensures NormalKey(items[i].0) in NormalKeys(items)
    ensures NormalKeys(items)[NormalKey(items[i].0)] == items[i].1
  {
    var init := items[..|items| - 1];
    if i < |init| {
      assert items[i] == init[i];
      forall j | i < j < |init|
        ensures NormalKey(init[j].0) != NormalKey(init[i].0)
      {
        assert init[j] == items[j];
      }
      NormalKeysLastWins(init, i);
    }
  }

  /** The attributes of the returned object: each key under its attribute
      name.  The keys are normalised, so no two share a name. */
  function Attributes(args: map<string, ArgValue>): (r: map<string, ArgValue>)
    requires NormalForm(args)
    ensures forall a | a in r :: ' ' !in a
  {
    assert forall j, k | j in args && k in args && AttributeName(j) == AttributeName(k) :: j == k by {
      forall j, k | j in args && k in args && AttributeName(j) == AttributeName(k)
        ensures j == k
      {
        AttributeNameInjective(j, k);
      }
    }
    map k | k in args :: AttributeName(k) := args[k]
  }

  /** Every entry is reachable under its attribute name, and every
      attribute is one of the entries. */
  lemma AttributesMeaning(args: map<string, ArgValue>)
    requires NormalForm(args)
    ensures forall k | k in args :: AttributeName(k) in Attributes(args) && Attributes(args)[AttributeName(k)] == args[k]
    ensures forall a | a in Attributes(args) :: exists k | k in args :: AttributeName(k) == a
  {
    forall k | k in args
      ensures Attributes(args)[AttributeName(k)] == args[k]
    {
      var a := AttributeName(k);
      var k' :| k' in args && AttributeName(k') == a && Attributes(args)[a] == args[k'];
      AttributeNameInjective(k, k');
    }
  }

  /** The object `read_args` returns: indexing reads `byKey`, attributes
      read `attributes`. */
  datatype Args = Args(byKey: map<string, ArgValue>, attributes: map<string, ArgValue>)

  /** The values "order edges" may take. */
  predicate OrderEdgesChoice(v: ArgValue) {
    v == Str("none") || v == Str("first") || v == Str("all")
  }

  /** An output path with one of the two accepted extensions. */
  predicate OutputPath(s: string) {
    (|s| >= 4 && s[|s| - 4..] == ".obj") || (|s| >= 5 && s[|s| - 5..] == ".html")
  }

  /** The dictionary passes every check of `read_args`. */
  ghost predicate Accepted(n: map<string, ArgValue>) {
    && "order edges" in n && OrderEdgesChoice(n["order edges"])
    && "output" in n && (n["output"].Null? || (n["output"].Str? && OutputPath(n["output"].s)))
    && "vverbose" in n && (Truthy(n["vverbose"]) || "verbose" in n)
    && "hide main edges" in n
    && "renderer" in n && (n["renderer"] == Str("plotly") || n["renderer"] == Str("mpl"))
  }

  /** The keys `read_args` writes itself. */
  predicate Derived(k: string) {
    k == "verbosity" || k == "verbose" || k == "show main edges" || k == "renderer class"
  }

  /** The derived keys are already in normal form, so writing them in keeps
      the dictionary in normal form. */
  lemma DerivedKeysNormal(n: map<string, ArgValue>, a: map<string, ArgValue>)
    requires NormalForm(n)
    requires a.Keys == n.Keys + {"verbosity", "verbose", "show main edges", "renderer class"}
    ensures NormalForm(a)
  {
    assert Plain("verbosity") && Plain("verbose") && Plain("show main edges") && Plain("renderer class");
  }

  /** The entries of `a` are those `read_args` leaves in the dictionary
      `n` once every check has passed: the derived keys are written in and
      every other entry is kept. */
  ghost predicate DerivedFrom(n: map<string, ArgValue>, a: map<string, ArgValue>)
    requires Accepted(n)
  {
    && a.Keys == n.Keys + {"verbosity", "verbose", "show main edges", "renderer class"}
    && (forall k | k in n && !Derived(k) :: a[k] == n[k])
    && (Truthy(n["vverbose"]) ==> a["verbosity"] == Int(2) && a["verbose"] == Bool(true))
    && (!Truthy(n["vverbose"]) ==> a["verbosity"] == Int(if Truthy(n["verbose"]) then 1 else 0) && a["verbose"] == n["verbose"])
    && a["show main edges"] == Bool(!Truthy(n["hide main edges"]))
    && a["renderer class"] == RendererClass(if n["renderer"] == Str("plotly") then PlotlyRenderer else MplRenderer)
  }

  /** `e` names a real defect of the dictionary `n`. */
  ghost predicate Rejects(n: map<string, ArgValue>, e: ArgError) {
    match e
    case MissingKey(k) => k !in n
    case InvalidOrderEdges(v) => "order edges" in n && n["order edges"] == v && !OrderEdgesChoice(v)
    case InvalidExtension(p) => "output" in n && n["output"] == Str(p) && !OutputPath(p)
    case NotText(k) => k == "output" && k in n && !n[k].Null? && !n[k].Str?
    case UnknownRenderer(v) => "renderer" in n && n["renderer"] == v && v != Str("plotly") && v != Str("mpl")
  }

  /** `read_args` from the parsed items on (chaikin3d/arg_utils.py): `items`
      are the parsed options in argparse's order. */
  method ReadArgs(items: seq<(string, ArgValue)>) returns (r: Result<Args, ArgError>)
    ensures r.Ok? <==> Accepted(NormalKeys(items))
    ensures r.Ok? ==> DerivedFrom(NormalKeys(items), r.value.byKey)
    ensures r.Ok? ==> NormalForm(r.value.byKey)
    ensures r.Ok? ==> r.value.attributes == Attributes(r.value.byKey)
    ensures r.Err? ==> Rejects(NormalKeys(items), r.error)
  {
    var args := NormalKeys(items);
    r := CheckArgs(args);
  }

  /** The checks and derived entries of `read_args`, applied in place to
      the normalised dictionary; the first failing check decides the error. */
  method CheckArgs(n: map<string, ArgValue>) returns (r: Result<Args, ArgError>)
    requires NormalForm(n)
    ensures r.Ok? <==> Accepted(n)
    ensures r.Ok? ==> DerivedFrom(n, r.value.byKey)
    ensures r.Ok? ==> NormalForm(r.value.byKey)
    ensures r.Ok? ==> r.value.attributes == Attributes(r.value.byKey)
    ensures r.Err? ==> Rejects(n, r.error)
    ensures "order edges" in n && !OrderEdgesChoice(n["order edges"]) ==> r == Err(InvalidOrderEdges(n["order edges"]))
    ensures ("order edges" in n && OrderEdgesChoice(n["order edges"]) && "output" in n && n["output"].Str?
      && !OutputPath(n["output"].s)) ==> r == Err(InvalidExtension(n["output"].s))
    ensures "renderer" in n && Accepted(n["renderer" := Str("plotly")]) ==> r == Err(UnknownRenderer(n["renderer"])) || r.Ok?
  {
    if "order edges" !in n {
      return Err(MissingKey("order edges"));
    }
    if !OrderEdgesChoice(n["order edges"]) {
      return Err(InvalidOrderEdges(n["order edges"]));
    }
    if "output" !in n {
      return Err(MissingKey("output"));
    }
    var output := n["output"];
    if !output.Null? {
      if !output.Str? {
        return Err(NotText("output"));
      }
      if !OutputPath(output.s) {
        return Err(InvalidExtension(output.s));
      }
    }
    if "vverbose" !in n {
      return Err(MissingKey("vverbose"));
    }
    if !Truthy(n["vverbose"]) && "verbose" !in n {
      return Err(MissingKey("verbose"));
    }
    if "hide main edges" !in n {
      return Err(MissingKey("hide main edges"));
    }
    if "renderer" !in n {
      return Err(MissingKey("renderer"));
    }
    if n["renderer"] != Str("plotly") && n["renderer"] != Str("mpl") {
      return Err(UnknownRenderer(n["renderer"]));
    }
    var args := Derive(n);
    r := Ok(Args(args, Attributes(args)));
  }

  /** The entries `read_args` writes into the dictionary in place: the
      verbosity entries, "show main edges" and the renderer class. */
  method Derive(n: map<string, ArgValue>) returns (args: map<string, ArgValue>)
    requires NormalForm(n) && Accepted(n)
    ensures DerivedFrom(n, args) && NormalForm(args)
  {
    args := SetVerbosity(n);
    args := args["show main edges" := Bool(!Truthy(args["hide main edges"]))];
    var kind := if args["renderer"] == Str("plotly") then PlotlyRenderer else MplRenderer;
    args := args["renderer class" := RendererClass(kind)];
    DerivedKeysNormal(n, args);
  }

  /** The verbosity block: very verbose gives level 2 and turns `verbose`
      on, otherwise `verbose` gives level 1, otherwise the level is 0. */
  method SetVerbosity(n: map<string, ArgValue>) returns (args: map<string, ArgValue>)
    requires "vverbose" in n && (Truthy(n["vverbose"]) || "verbose" in n)
    ensures args.Keys == n.Keys + {"verbosity", "verbose"}
    ensures forall k | k in n && k != "verbosity" && k != "verbose" :: args[k] == n[k]
    ensures Truthy(n["vverbose"]) ==> args["verbosity"] == Int(2) && args["verbose"] == Bool(true)
    ensures !Truthy(n["vverbose"]) ==>
      args["verbosity"] == Int(if Truthy(n["verbose"]) then 1 else 0) && args["verbose"] == n["verbose"]
  {
    args := n;
    if Truthy(args["vverbose"]) {
      args := args["verbosity" := Int(2)];
      args := args["verbose" := Bool(true)];
    } else if Truthy(args["verbose"]) {
      args := args["verbosity" := Int(1)];
    } else {
      args := args["verbosity" := Int(0)];
    }
  }
}
