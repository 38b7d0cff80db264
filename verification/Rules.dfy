/** The rule registry of the previewer: the three insertion-ordered
    dictionaries `custom_syntax` (rule name to transform), `symbol_syntax`
    (trigger symbol to rule name) and `single_side_syntax` (rule name to
    flag), and how loading rule units and the built-in rules fills them. */
module Rules {
  import opened Text
  import opened Header

  /** A Python callable as the previewer uses it: a transform of the enclosed
      text for two-sided rules, or a producer with no argument for
      single-sided rules. */
  datatype Callable = Unary(apply: string -> string) | Nullary(make: () -> string)

  /** What calling a transform can give: its text, or the `TypeError` raised
      when it is called with the wrong number of arguments. */
  datatype Result<T> = Ok(value: T) | TypeError

  // Insertion-ordered dictionaries, as sequences of (key, value) pairs.

  function Keys<K, V>(d: seq<(K, V)>): (r: seq<K>)
    ensures |r| == |d| && forall i :: 0 <= i < |d| ==> r[i] == d[i].0
  {
    seq(|d|, i requires 0 <= i < |d| => d[i].0)
  }

  predicate DistinctKeys<K(==), V>(d: seq<(K, V)>) {
    forall i, j :: 0 <= i < j < |d| ==> d[i].0 != d[j].0
  }

  /** `d.get(k)`: the value stored under `k`, if any. */
  function Get<K(==), V>(d: seq<(K, V)>, k: K): (r: Option<V>)
    ensures r.None? <==> k !in Keys(d)
  {
    if |d| == 0 then None
    else if d[0].0 == k then Some(d[0].1)
    else
      assert Keys(d) == [d[0].0] + Keys(d[1..]);
      Get(d[1..], k)
  }

  /** `d.get(k, default)`. */
  function GetOr<K(==), V>(d: seq<(K, V)>, k: K, default: V): (r: V)
    ensures k !in Keys(d) ==> r == default
    ensures k in Keys(d) ==> (k, r) in d
  {
    GetFound(d, k);
    match Get(d, k)
    case Some(v) => v
    case None => default
  }

  lemma {:induction false} GetFound<K, V>(d: seq<(K, V)>, k: K)
    ensures Get(d, k).Some? ==> (k, Get(d, k).value) in d
  {
    if |d| > 0 && d[0].0 != k {
      GetFound(d[1..], k);
    }
  }

  /** `d[k] = v`: an existing key keeps its place and takes the new value;
      a new key goes at the end. */
  function Put<K(==), V>(d: seq<(K, V)>, k: K, v: V): (r: seq<(K, V)>)
    ensures Get(r, k) == Some(v)
    ensures k !in Keys(d) ==> r == d + [(k, v)]
  {
    if |d| == 0 then [(k, v)]
    else if d[0].0 == k then [(k, v)] + d[1..]
    else
      Regroup(d, (k, v));
      [d[0]] + Put(d[1..], k, v)
  }

  lemma Regroup<T>(d: seq<T>, x: T)
    requires |d| > 0
    ensures [d[0]] + (d[1..] + [x]) == d + [x]
  {
  }

  /** After `d[k] = v` the key `k` reads back `v`, every other key reads back
      what it read before, and the keys keep their order, with `k` appended
      only when it was new. */
  lemma {:induction false} PutGet<K, V>(d: seq<(K, V)>, k: K, v: V, k': K)
    ensures Get(Put(d, k, v), k') == if k' == k then Some(v) else Get(d, k')
    ensures Keys(Put(d, k, v)) == if k in Keys(d) then Keys(d) else Keys(d) + [k]
  {
    PutKeys(d, k, v);
    if |d| > 0 && d[0].0 != k {
      PutGet(d[1..], k, v, k');
    }
  }

  lemma {:induction false} PutKeys<K, V>(d: seq<(K, V)>, k: K, v: V)
    ensures Keys(Put(d, k, v)) == if k in Keys(d) then Keys(d) else Keys(d) + [k]
  {
    if |d| > 0 {
      assert d == [d[0]] + d[1..];
      if d[0].0 == k {
        KeysCons(d[0], d[1..]);
        KeysCons((k, v), d[1..]);
      } else {
        PutKeys(d[1..], k, v);
        KeysStep(d[0], d[1..], k, Put(d[1..], k, v));
      }
    }
  }

  lemma KeysStep<K, V>(x: (K, V), tail: seq<(K, V)>, k: K, rest: seq<(K, V)>)
    requires x.0 != k
    requires Keys(rest) == if k in Keys(tail) then Keys(tail) else Keys(tail) + [k]
    ensures Keys([x] + rest) == if k in Keys([x] + tail) then Keys([x] + tail) else Keys([x] + tail) + [k]
  {
    KeysCons(x, tail);
    KeysCons(x, rest);
    assert k in Keys([x] + tail) <==> k in Keys(tail);
    assert [x.0] + (Keys(tail) + [k]) == ([x.0] + Keys(tail)) + [k];
  }

  lemma KeysCons<K, V>(x: (K, V), rest: seq<(K, V)>)
    ensures Keys([x] + rest) == [x.0] + Keys(rest)
  {
  }

  /** Storing under a key keeps the keys distinct. */
  lemma {:induction false} PutDistinct<K, V>(d: seq<(K, V)>, k: K, v: V)
    ensures DistinctKeys(d) ==> DistinctKeys(Put(d, k, v))
  {
    if |d| > 0 && DistinctKeys(d) {
      TailDistinct(d);
      var r := Put(d, k, v);
      if d[0].0 == k {
        ConsDistinct((k, v), d[1..]);
      } else {
        PutDistinct(d[1..], k, v);
        PutGet(d[1..], k, v, k);
        assert d[0].0 !in Keys(Put(d[1..], k, v));
        ConsDistinct(d[0], Put(d[1..], k, v));
      }
    }
  }

  lemma TailDistinct<K, V>(d: seq<(K, V)>)
    requires |d| > 0 && DistinctKeys(d)
    ensures DistinctKeys(d[1..]) && d[0].0 !in Keys(d[1..])
  {
    var tail := d[1..];
    forall j | 0 <= j < |tail| ensures Keys(tail)[j] != d[0].0 {
      assert tail[j] == d[j + 1];
    }
  }

  lemma ConsDistinct<K, V>(x: (K, V), rest: seq<(K, V)>)
    requires DistinctKeys(rest) && x.0 !in Keys(rest)
    ensures DistinctKeys([x] + rest)
  {
    var d := [x] + rest;
    forall i, j | 0 <= i < j < |d| ensures d[i].0 != d[j].0 {
      assert d[j] == rest[j - 1];
      if i == 0 {
        assert Keys(rest)[j - 1] == rest[j - 1].0;
      } else {
        assert d[i] == rest[i - 1];
      }
    }
  }

  // The registry.

  /** A rule unit found in the `mod` folder, after its code has been run:
      the file name without `.py`, the file's text, and the callable the
      code defined under that name. */
  datatype Unit = Unit(stem: string, code: string, entry: Callable)

  /** What the loader takes from a unit: its stem and callable, and the
      symbol and flag of its header (`None` and `false` without one). */
  datatype Entry = Entry(stem: string, entry: Callable, symbol: Option<string>, single: bool)

  /** The three dictionaries of the previewer. */
  datatype Tables = Tables(custom: seq<(string, Callable)>, symbols: seq<(string, string)>, flags: seq<(string, bool)>)

  const Empty: Tables := Tables([], [], [])

  /** The line the loader puts in front of a unit's code before reading its header. */
  const CodingLine: string := "# -*- coding: utf-8 -*-\n"

  /** A rule name the tag patterns can hold literally: ASCII letters, digits
      and underscores. */
  predicate IsName(n: string) {
    |n| > 0 && forall i :: 0 <= i < |n| ==> ('a' <= n[i] <= 'z' || 'A' <= n[i] <= 'Z' || '0' <= n[i] <= '9' || n[i] == '_')
  }

  /** What a registry always satisfies: each dictionary has distinct keys. */
  ghost predicate WellFormed(t: Tables) {
    DistinctKeys(t.custom) && DistinctKeys(t.symbols) && DistinctKeys(t.flags)
  }

  /** Reading one unit: its header is searched for in its code with the
      coding line in front. */
  function Read(u: Unit): (e: Entry)
    ensures e.stem == u.stem && e.entry == u.entry
    ensures e.symbol.Some? ==> Token(e.symbol.value)
    ensures e.symbol.None? ==> !e.single
  {
    var (symbol, single) := GetSymbolAndSide(CodingLine + u.code);
    Entry(u.stem, u.entry, symbol, single)
  }

  function ReadAll(us: seq<Unit>): (es: seq<Entry>)
    ensures |es| == |us| && forall i :: 0 <= i < |us| ==> es[i] == Read(us[i])
  {
    seq(|us|, i requires 0 <= i < |us| => Read(us[i]))
  }

  /** Registering one unit: its callable goes under its stem, and when its
      header gave a symbol, the symbol maps to the stem and the stem gets
      the flag. */
  function Register(t: Tables, e: Entry): (r: Tables)
    ensures Get(r.custom, e.stem) == Some(e.entry)
    ensures e.symbol.Some? ==> Get(r.symbols, e.symbol.value) == Some(e.stem) && Get(r.flags, e.stem) == Some(e.single)
    ensures e.symbol.None? ==> r.symbols == t.symbols && r.flags == t.flags
  {
    var custom := Put(t.custom, e.stem, e.entry);
    match e.symbol
    case Some(symbol) => Tables(custom, Put(t.symbols, symbol, e.stem), Put(t.flags, e.stem, e.single))
    case None => Tables(custom, t.symbols, t.flags)
  }

  /** Registering the units one after another, in the order given; every
      unit's stem then holds a rule. */
  function LoadEntries(t: Tables, es: seq<Entry>): (r: Tables)
    ensures forall i :: 0 <= i < |es| ==> Get(r.custom, es[i].stem).Some?
  {
    if |es| == 0 then t
    else
      var last := |es| - 1;
      var before := LoadEntries(t, es[..last]);
      StemsKept(before, es[..last], es[last]);
      assert es[..last] + [es[last]] == es;
      Register(before, es[last])
  }

  /** Registering one more unit keeps every stem registered so far. */
  lemma StemsKept(before: Tables, prefix: seq<Entry>, e: Entry)
    requires forall i :: 0 <= i < |prefix| ==> Get(before.custom, prefix[i].stem).Some?
    ensures forall i :: 0 <= i < |prefix| + 1 ==> Get(Register(before, e).custom, (prefix + [e])[i].stem).Some?
  {
    forall i | 0 <= i < |prefix| + 1 ensures Get(Register(before, e).custom, (prefix + [e])[i].stem).Some? {
      RegisterStem(before, e, (prefix + [e])[i].stem);
    }
  }

  /** Registering keeps the registry well formed. */
  lemma RegisterWellFormed(t: Tables, e: Entry)
    ensures WellFormed(t) ==> WellFormed(Register(t, e))
  {
    PutDistinct(t.custom, e.stem, e.entry);
    if e.symbol.Some? {
      PutDistinct(t.symbols, e.symbol.value, e.stem);
      PutDistinct(t.flags, e.stem, e.single);
    }
  }

  lemma {:induction false} LoadWellFormed(t: Tables, es: seq<Entry>)
    ensures WellFormed(t) ==> WellFormed(LoadEntries(t, es))
  {
    if |es| > 0 {
      LoadWellFormed(t, es[..|es| - 1]);
      RegisterWellFormed(LoadEntries(t, es[..|es| - 1]), es[|es| - 1]);
    }
  }

  /** Loading one more unit is registering it on top of what was loaded. */
  lemma LoadNext(t: Tables, es: seq<Entry>, i: nat)
    requires i < |es|
    ensures LoadEntries(t, es[..i + 1]) == Register(LoadEntries(t, es[..i]), es[i])
  {
    assert es[..i + 1][..i] == es[..i];
  }

  /** `load_custom_syntax`: with no `mod` folder (`None`) the folder is
      created and nothing is registered; otherwise its units are registered
      in listing order, and every unit's stem then holds a rule. */
  function LoadFolder(t: Tables, folder: Option<seq<Unit>>): (r: Tables)
    ensures folder.None? ==> r == t
    ensures folder.Some? ==> forall i :: 0 <= i < |folder.value| ==> Get(r.custom, folder.value[i].stem).Some?
    ensures WellFormed(t) ==> WellFormed(r)
  {
    match folder
    case None => t
    case Some(us) =>
      LoadWellFormed(t, ReadAll(us));
      LoadEntries(t, ReadAll(us))
  }

  /** The built-in rules, in the order `load_default_syntax` lists them. */
  const Defaults: seq<(string, Callable)> := [
    ("bold", Unary(text => "<strong>" + text + "</strong>")),
    ("italic", Unary(text => "<em>" + text + "</em>")),
    ("underline", Unary(text => "<u>" + text + "</u>")),
    ("strikethrough", Unary(text => "<del>" + text + "</del>"))
  ]

  /** Adding the rules of `ds` in order, each only when its name is still free. */
  function SeedDefaults(custom: seq<(string, Callable)>, ds: seq<(string, Callable)>): (r: seq<(string, Callable)>)
    ensures custom <= r
    ensures DistinctKeys(custom) ==> DistinctKeys(r)
  {
    if |ds| == 0 then custom else SeedOne(SeedDefaults(custom, ds[..|ds| - 1]), ds[|ds| - 1])
  }

  /** One step of `load_default_syntax`: the rule is added when its name is free. */
  function SeedOne(custom: seq<(string, Callable)>, d: (string, Callable)): (r: seq<(string, Callable)>)
    ensures custom <= r && Get(r, d.0).Some?
    ensures DistinctKeys(custom) ==> DistinctKeys(r)
  {
    if Get(custom, d.0).None? then Put(custom, d.0, d.1) else custom
  }

  /** The registry after `__init__`: the folder's units, then the built-ins. */
  function Initial(folder: Option<seq<Unit>>): (r: Tables)
    ensures WellFormed(r)
    ensures forall i :: 0 <= i < |Defaults| ==> Get(r.custom, Defaults[i].0).Some?
    ensures r.symbols == LoadFolder(Empty, folder).symbols && r.flags == LoadFolder(Empty, folder).flags
  {
    var t := LoadFolder(Empty, folder);
    DefaultsPresent(t.custom);
    t.(custom := SeedDefaults(t.custom, Defaults))
  }

  // Registration.

  /** Every registered unit's callable is stored under its stem, and no
      other rule's callable changes. */
  lemma RegisterStem(t: Tables, e: Entry, n: string)
    ensures Get(Register(t, e).custom, n) == if n == e.stem then Some(e.entry) else Get(t.custom, n)
  {
    PutGet(t.custom, e.stem, e.entry, n);
  }

  /** A unit without a header leaves the symbol and flag tables alone. */
  lemma RegisterNoHeader(t: Tables, u: Unit)
    requires GetSymbolAndSide(CodingLine + u.code).0.None?
    ensures Register(t, Read(u)).symbols == t.symbols && Register(t, Read(u)).flags == t.flags
  {
  }

  /** A unit whose code carries the canonical header before any double quote
      maps its symbol to its stem and records its flag under its stem. */
  lemma RegisterHeader(t: Tables, u: Unit, pre: string, tok: string, b: bool, rest: string)
    requires u.code == pre + Canonical(tok, b) + rest && '"' !in pre && Token(tok)
    ensures Read(u).symbol == Some(tok) && Read(u).single == b
    ensures Get(Register(t, Read(u)).symbols, tok) == Some(u.stem)
    ensures Get(Register(t, Read(u)).flags, u.stem) == Some(b)
  {
    ReadHeader(u, pre, tok, b, rest);
  }

  lemma ReadHeader(u: Unit, pre: string, tok: string, b: bool, rest: string)
    requires u.code == pre + Canonical(tok, b) + rest && '"' !in pre && Token(tok)
    ensures Read(u).symbol == Some(tok) && Read(u).single == b
  {
    var line := CodingLine;
    Prepend(line, pre, Canonical(tok, b), rest);
    NoQuoteIn(line, pre);
    HeaderParsed(line + pre, tok, b, rest);
  }

  lemma Prepend(line: string, x: string, y: string, z: string)
    ensures line + (x + y + z) == (line + x) + y + z
  {
  }

  lemma NoQuoteIn(line: string, pre: string)
    requires line == CodingLine && '"' !in pre
    ensures '"' !in line + pre
  {
    assert forall i :: 0 <= i < |line| ==> line[i] != '"';
  }

  /** A symbol, and a flag, enter the tables only through a unit whose
      header gave that symbol, under that unit's stem. */
  lemma RegisterSymbolNeedsHeader(t: Tables, e: Entry, sym: string, n: string)
    ensures Get(Register(t, e).symbols, sym) != Get(t.symbols, sym) ==>
      e.symbol == Some(sym) && Get(Register(t, e).symbols, sym) == Some(e.stem)
    ensures Get(Register(t, e).flags, n) != Get(t.flags, n) ==>
      e.symbol.Some? && n == e.stem && Get(Register(t, e).flags, n) == Some(e.single)
  {
    if e.symbol.Some? {
      PutGet(t.symbols, e.symbol.value, e.stem, sym);
      PutGet(t.flags, e.stem, e.single, n);
    }
  }

  /** The rule stored under a stem after loading comes from the last unit
      with that stem. */
  lemma {:induction false} LastStemWins(t: Tables, es: seq<Entry>, i: nat)
    requires i < |es| && forall j :: i < j < |es| ==> es[j].stem != es[i].stem
    ensures Get(LoadEntries(t, es).custom, es[i].stem) == Some(es[i].entry)
  {
    var last := |es| - 1;
    var before := LoadEntries(t, es[..last]);
    assert LoadEntries(t, es) == Register(before, es[last]);
    RegisterStem(before, es[last], es[i].stem);
    if i < last {
      LastStemWins(t, es[..last], i);
    }
  }

  /** A stem that no unit carries keeps the rule it had before loading. */
  lemma {:induction false} UnusedStemKept(t: Tables, es: seq<Entry>, n: string)
    requires forall j :: 0 <= j < |es| ==> es[j].stem != n
    ensures Get(LoadEntries(t, es).custom, n) == Get(t.custom, n)
  {
    if |es| > 0 {
      var last := |es| - 1;
      RegisterStem(LoadEntries(t, es[..last]), es[last], n);
      UnusedStemKept(t, es[..last], n);
    }
  }

  /** A symbol maps, after loading, to the stem of the last unit whose
      header gave that symbol. */
  lemma {:induction false} LastSymbolWins(t: Tables, es: seq<Entry>, i: nat, sym: string)
    requires i < |es| && es[i].symbol == Some(sym)
    requires forall j :: i < j < |es| ==> es[j].symbol != Some(sym)
    ensures Get(LoadEntries(t, es).symbols, sym) == Some(es[i].stem)
  {
    var last := |es| - 1;
    var before := LoadEntries(t, es[..last]);
    assert LoadEntries(t, es) == Register(before, es[last]);
    if i < last {
      assert es[..last][i] == es[i];
      LastSymbolWins(t, es[..last], i, sym);
      RegisterOtherSymbol(before, es[last], sym);
    }
  }

  lemma RegisterOtherSymbol(t: Tables, e: Entry, sym: string)
    requires e.symbol != Some(sym)
    ensures Get(Register(t, e).symbols, sym) == Get(t.symbols, sym)
  {
    if e.symbol.Some? {
      PutGet(t.symbols, e.symbol.value, e.stem, sym);
    }
  }

  /** A symbol no unit's header gave keeps the mapping it had before loading. */
  lemma {:induction false} UnusedSymbolKept(t: Tables, es: seq<Entry>, sym: string)
    requires forall j :: 0 <= j < |es| ==> es[j].symbol != Some(sym)
    ensures Get(LoadEntries(t, es).symbols, sym) == Get(t.symbols, sym)
  {
    if |es| > 0 {
      var last := |es| - 1;
      RegisterSymbolNeedsHeader(LoadEntries(t, es[..last]), es[last], sym, "");
      UnusedSymbolKept(t, es[..last], sym);
    }
  }

  // The built-in rules.

  lemma DefaultNames()
    ensures Keys(Defaults) == ["bold", "italic", "underline", "strikethrough"]
  {
  }

  lemma SeedOneGet(custom: seq<(string, Callable)>, d: (string, Callable), n: string)
    ensures Get(SeedOne(custom, d), n) == if n == d.0 && Get(custom, n).None? then Some(d.1) else Get(custom, n)
  {
    PutGet(custom, d.0, d.1, n);
  }

  /** Seeding keeps every existing entry's callable and only adds names of `ds`. */
  lemma {:induction false} SeedKeeps(custom: seq<(string, Callable)>, ds: seq<(string, Callable)>, n: string)
    ensures Get(custom, n).Some? ==> Get(SeedDefaults(custom, ds), n) == Get(custom, n)
    ensures Get(SeedDefaults(custom, ds), n).Some? ==> Get(custom, n).Some? || n in Keys(ds)
  {
    if |ds| > 0 {
      var last := |ds| - 1;
      var before := SeedDefaults(custom, ds[..last]);
      assert SeedDefaults(custom, ds) == SeedOne(before, ds[last]);
      SeedKeeps(custom, ds[..last], n);
      SeedOneGet(before, ds[last], n);
      KeysLast(ds);
    }
  }

  lemma KeysLast<K, V>(d: seq<(K, V)>)
    requires |d| > 0
    ensures Keys(d) == Keys(d[..|d| - 1]) + [d[|d| - 1].0]
  {
  }

  /** After seeding, every name of `ds` is present, and a name that was free
      holds the first rule `ds` lists under it. */
  lemma {:induction false} SeedPresent(custom: seq<(string, Callable)>, ds: seq<(string, Callable)>, i: nat)
    requires i < |ds|
    ensures Get(SeedDefaults(custom, ds), ds[i].0).Some?
    ensures Get(custom, ds[i].0).None? && (forall j :: 0 <= j < i ==> ds[j].0 != ds[i].0) ==>
      Get(SeedDefaults(custom, ds), ds[i].0) == Some(ds[i].1)
  {
    var last := |ds| - 1;
    SeedOneGet(SeedDefaults(custom, ds[..last]), ds[last], ds[i].0);
    if i < last {
      SeedPresent(custom, ds[..last], i);
    } else {
      SeedFree(custom, ds[..last], ds[i].0);
    }
  }

  lemma SeedFree(custom: seq<(string, Callable)>, ds: seq<(string, Callable)>, n: string)
    ensures Get(custom, n).None? && (forall j :: 0 <= j < |ds| ==> ds[j].0 != n) ==> Get(SeedDefaults(custom, ds), n).None?
  {
    SeedKeeps(custom, ds, n);
  }

  /** `load_default_syntax`: afterwards bold, italic, underline and
      strikethrough are all present; a name a unit already registered keeps
      that unit's callable; a free built-in name gets the built-in; the
      existing entries stay first, in their order, and nothing else is added. */
  lemma DefaultsSeeded(custom: seq<(string, Callable)>, n: string)
    ensures forall i :: 0 <= i < |Defaults| ==> Get(SeedDefaults(custom, Defaults), Defaults[i].0).Some?
    ensures forall i :: 0 <= i < |Defaults| && Get(custom, Defaults[i].0).None? ==>
      Get(SeedDefaults(custom, Defaults), Defaults[i].0) == Some(Defaults[i].1)
    ensures Get(custom, n).Some? ==> Get(SeedDefaults(custom, Defaults), n) == Get(custom, n)
    ensures Get(SeedDefaults(custom, Defaults), n).Some? ==> Get(custom, n).Some? || n in Keys(Defaults)
    ensures custom <= SeedDefaults(custom, Defaults)
  {
    DefaultsPresent(custom);
    SeedKeeps(custom, Defaults, n);
  }

  lemma DefaultsPresent(custom: seq<(string, Callable)>)
    ensures forall i :: 0 <= i < |Defaults| ==> Get(SeedDefaults(custom, Defaults), Defaults[i].0).Some?
    ensures forall i :: 0 <= i < |Defaults| && Get(custom, Defaults[i].0).None? ==>
      Get(SeedDefaults(custom, Defaults), Defaults[i].0) == Some(Defaults[i].1)
  {
    forall i | 0 <= i < |Defaults|
      ensures Get(SeedDefaults(custom, Defaults), Defaults[i].0).Some?
      ensures Get(custom, Defaults[i].0).None? ==> Get(SeedDefaults(custom, Defaults), Defaults[i].0) == Some(Defaults[i].1)
    {
      DefaultsDistinct();
      SeedPresent(custom, Defaults, i);
    }
  }

  /** A folder holding one unit registers that unit alone. */
  lemma LoadSingle(t: Tables, u: Unit)
    ensures LoadFolder(t, Some([u])) == Register(t, Read(u))
  {
    var es := ReadAll([u]);
    assert es == [Read(u)];
    assert es[..0] == [];
    assert LoadEntries(t, es) == Register(LoadEntries(t, es[..0]), es[0]);
  }

  /** Seeding a table that holds none of the names of `ds`, which are
      distinct, appends the rules of `ds` in their order. */
  lemma {:induction false} SeedFresh(custom: seq<(string, Callable)>, ds: seq<(string, Callable)>)
    requires DistinctKeys(ds)
    requires forall i :: 0 <= i < |ds| ==> ds[i].0 !in Keys(custom)
    ensures SeedDefaults(custom, ds) == custom + ds
  {
    if |ds| > 0 {
      var last := |ds| - 1;
      assert DistinctKeys(ds[..last]) by {
        forall i, j | 0 <= i < j < last ensures ds[..last][i].0 != ds[..last][j].0 {
          assert ds[..last][i] == ds[i] && ds[..last][j] == ds[j];
        }
      }
      assert forall i :: 0 <= i < last ==> ds[..last][i] == ds[i];
      SeedFresh(custom, ds[..last]);
      FreshKey(custom, ds);
      var before := custom + ds[..last];
      assert SeedDefaults(custom, ds) == SeedOne(before, ds[last]);
      assert Get(before, ds[last].0).None?;
      assert SeedOne(before, ds[last]) == before + [(ds[last].0, ds[last].1)];
      AppendLast(custom, ds);
    }
  }

  lemma AppendLast<T>(a: seq<T>, b: seq<T>)
    requires |b| > 0
    ensures (a + b[..|b| - 1]) + [b[|b| - 1]] == a + b
  {
    assert b[..|b| - 1] + [b[|b| - 1]] == b;
  }

  lemma FreshKey<V>(custom: seq<(string, V)>, ds: seq<(string, V)>)
    requires |ds| > 0 && DistinctKeys(ds)
    requires forall i :: 0 <= i < |ds| ==> ds[i].0 !in Keys(custom)
    ensures ds[|ds| - 1].0 !in Keys(custom + ds[..|ds| - 1])
  {
    var last := |ds| - 1;
    var k := Keys(custom + ds[..last]);
    forall j | 0 <= j < |k| ensures k[j] != ds[last].0 {
      if j >= |custom| {
        assert k[j] == ds[j - |custom|].0;
      }
    }
  }

  /** With no `mod` folder the registry holds exactly the four built-in
      rules, in their order, and no symbols or flags. */
  lemma InitialNoFolder()
    ensures Initial(None) == Tables(Defaults, [], [])
  {
    DefaultsDistinct();
    SeedFresh([], Defaults);
    assert [] + Defaults == Defaults;
    assert LoadFolder(Empty, None) == Empty;
  }

  lemma DefaultsDistinct()
    ensures DistinctKeys(Defaults)
  {
    DefaultNames();
    var names := Keys(Defaults);
    forall i, j | 0 <= i < j < |Defaults| ensures Defaults[i].0 != Defaults[j].0 {
      assert names[i] == Defaults[i].0 && names[j] == Defaults[j].0;
    }
  }
}
