/**
 The hyphenated-input parameter resolver: it fills the positions of a callable's
 declared parameters from a bag of provided `name => value` arguments whose names
 may be hyphenated or differently cased ("dry-run" for a parameter "dryRun").

 The callable's declared parameter names arrive as a sequence (the index is the
 position); the provided arguments as a sequence of pairs in iteration order;
 the already resolved parameters, which are both input and output, as a map from
 position to value. `Lookup` and `Resolve` are the specification;
 `GetParameters` is the two-loop routine, proved equal to it.
 */
module HyphenatedInputResolver {
  import opened Names

  /** Lower-cased declared parameter name -> position of that parameter. */
  type Table = map<string, nat>

  /**
   The lookup table, built by visiting the declared names in order and writing
   each one's lower-cased form at its position.
   */
  function Lookup(declared: seq<string>): (r: Table)
    // every entry is a declared position whose name lower-cases to the key
    ensures forall key :: key in r ==> r[key] < |declared| && Lower(declared[r[key]]) == key
    decreases |declared|
  {
    if declared == [] then map[]
    else
      var n := |declared| - 1;
      var front := declared[..n];
      assert forall i :: 0 <= i < n ==> front[i] == declared[i];
      Lookup(front)[Lower(declared[n]) := n]
  }

  /**
   Every declared name has an entry in the table, at its own position or a later
   one: when several names lower-case alike, the last position wins.
   */
  lemma {:induction false} LookupLastWriteWins(declared: seq<string>, i: int)
    requires 0 <= i < |declared|
    ensures Lower(declared[i]) in Lookup(declared)
    ensures i <= Lookup(declared)[Lower(declared[i])]
    decreases |declared|
  {
    var n := |declared| - 1;
    var front := declared[..n];
    assert Lookup(declared) == Lookup(front)[Lower(declared[n]) := n];
    if i < n {
      assert front[i] == declared[i];
      LookupLastWriteWins(front, i);
    }
  }

  /** The provided name `name` is looked up, after normalisation, at position `k`. */
  predicate Targets(table: Table, name: string, k: int) {
    Normalise(name) in table && table[Normalise(name)] == k
  }

  /**
   One provided argument: skipped when its normalised name has no entry or its
   position is already resolved, otherwise written at that position.
   */
  function Step<V>(table: Table, resolved: map<int, V>, name: string, value: V): (r: map<int, V>)
    ensures forall k :: k in resolved ==> k in r && r[k] == resolved[k]
    ensures forall k :: k in r && k !in resolved ==> Targets(table, name, k) && r[k] == value
    ensures forall k :: k !in resolved && Targets(table, name, k) ==> k in r
  {
    var key := Normalise(name);
    if key !in table then resolved
    else if table[key] in resolved then resolved
    else resolved[table[key] := value]
  }

  /** All provided arguments, in iteration order, against a given table. */
  function ResolveWith<V>(table: Table, provided: seq<(string, V)>, resolved: map<int, V>): (r: map<int, V>)
    // nothing resolved before is removed or overwritten
    ensures forall k :: k in resolved ==> k in r && r[k] == resolved[k]
    decreases |provided|
  {
    if provided == [] then resolved
    else
      var n := |provided| - 1;
      var prev := ResolveWith(table, provided[..n], resolved);
      Step(table, prev, provided[n].0, provided[n].1)
  }

  /** The resolver's result for declared names, provided arguments and already resolved parameters. */
  function Resolve<V>(declared: seq<string>, provided: seq<(string, V)>, resolved: map<int, V>): (r: map<int, V>)
    ensures forall k :: k in resolved ==> k in r && r[k] == resolved[k]
    ensures forall k :: k in r && k !in resolved ==> 0 <= k < |declared|
  {
    ResolveWithAddsOnlyTable(Lookup(declared), provided, resolved);
    ResolveWith(Lookup(declared), provided, resolved)
  }

  /** Every position added is one that some entry of the table holds. */
  lemma {:induction false} ResolveWithAddsOnlyTable<V>(table: Table, provided: seq<(string, V)>, resolved: map<int, V>)
    ensures ResolveWith(table, provided, resolved).Keys <= resolved.Keys + table.Values
    decreases |provided|
  {
    if provided != [] {
      ResolveWithAddsOnlyTable(table, provided[..|provided| - 1], resolved);
    }
  }

  /** `j` is the first provided argument whose normalised name is looked up at position `k`. */
  predicate FirstTarget<V>(table: Table, provided: seq<(string, V)>, k: int, j: int) {
    && 0 <= j < |provided|
    && Targets(table, provided[j].0, k)
    && forall j' :: 0 <= j' < j ==> !Targets(table, provided[j'].0, k)
  }

  /**
   What happens to a position that was not resolved before: it is filled exactly
   when some provided argument targets it, and then with the value of the first
   such argument in iteration order.
   */
  lemma {:induction false} ResolveWithUnresolved<V>(table: Table, provided: seq<(string, V)>, resolved: map<int, V>, k: int)
    requires k !in resolved
    ensures k in ResolveWith(table, provided, resolved) <==>
              exists j :: 0 <= j < |provided| && Targets(table, provided[j].0, k)
    ensures forall j :: FirstTarget(table, provided, k, j) ==> ResolveWith(table, provided, resolved)[k] == provided[j].1
    decreases |provided|
  {
    if provided != [] {
      var n := |provided| - 1;
      var front := provided[..n];
      assert forall j :: 0 <= j < n ==> front[j] == provided[j];
      ResolveWithUnresolved(table, front, resolved, k);
      var prev := ResolveWith(table, front, resolved);
      if k in prev {
        var j0 :| 0 <= j0 < n && Targets(table, front[j0].0, k);
        forall j | FirstTarget(table, provided, k, j)
          ensures ResolveWith(table, provided, resolved)[k] == provided[j].1
        {
          assert j <= j0;
          assert FirstTarget(table, front, k, j);
        }
      } else {
        forall j | FirstTarget(table, provided, k, j)
          ensures ResolveWith(table, provided, resolved)[k] == provided[j].1
        {
          assert j == n;
        }
      }
    }
  }

  /** Resolving a concatenation resolves the first part, then the second from there. */
  lemma {:induction false} ResolveWithAppend<V>(table: Table, front: seq<(string, V)>, back: seq<(string, V)>, resolved: map<int, V>)
    ensures ResolveWith(table, front + back, resolved) == ResolveWith(table, back, ResolveWith(table, front, resolved))
    decreases |back|
  {
    if back == [] {
      assert front + back == front;
    } else {
      var n := |back| - 1;
      var whole := front + back;
      assert whole[..|front| + n] == front + back[..n];
      assert whole[|front| + n] == back[n];
      ResolveWithAppend(table, front, back[..n], resolved);
    }
  }

  /**
   Every position in the result is either one resolved before, with its value
   unchanged, or a valid declared position, filled from the first provided
   argument whose normalised name is that parameter's lower-cased name.
   */
  lemma ResolveNewEntries<V>(declared: seq<string>, provided: seq<(string, V)>, resolved: map<int, V>, k: int)
    requires k in Resolve(declared, provided, resolved) && k !in resolved
    ensures 0 <= k < |declared|
    ensures exists j :: FirstTarget(Lookup(declared), provided, k, j)
    ensures forall j :: FirstTarget(Lookup(declared), provided, k, j) ==>
              Normalise(provided[j].0) == Lower(declared[k]) && Resolve(declared, provided, resolved)[k] == provided[j].1
  {
    var table := Lookup(declared);
    ResolveWithUnresolved(table, provided, resolved, k);
    var j0 :| 0 <= j0 < |provided| && Targets(table, provided[j0].0, k);
    var first := FirstIndex(table, provided, k, j0);
    assert FirstTarget(table, provided, k, first);
  }

  /** The least index at or below `j` whose provided name targets `k`. */
  ghost function FirstIndex<V>(table: Table, provided: seq<(string, V)>, k: int, j: int): (first: int)
    requires 0 <= j < |provided| && Targets(table, provided[j].0, k)
    ensures first <= j && FirstTarget(table, provided, k, first)
    decreases j
  {
    if exists j' :: 0 <= j' < j && Targets(table, provided[j'].0, k) then
      var j' :| 0 <= j' < j && Targets(table, provided[j'].0, k);
      FirstIndex(table, provided, k, j')
    else j
  }

  /**
   No match is lost: whenever a provided name normalises to a key of the table,
   the position under that key is in the result (filled before, or by the first
   provided name that targets it).
   */
  lemma ResolveFillsEveryMatch<V>(declared: seq<string>, provided: seq<(string, V)>, resolved: map<int, V>, j: int)
    requires 0 <= j < |provided|
    requires Normalise(provided[j].0) in Lookup(declared)
    ensures Lookup(declared)[Normalise(provided[j].0)] in Resolve(declared, provided, resolved)
  {
    var k := Lookup(declared)[Normalise(provided[j].0)];
    if k !in resolved {
      ResolveWithUnresolved(Lookup(declared), provided, resolved, k);
    }
  }

  /**
   A provided argument whose normalised name is no declared parameter's
   lower-cased name adds nothing, wherever it stands.
   */
  lemma ResolveSkipsUnmatched<V>(declared: seq<string>, front: seq<(string, V)>, name: string, value: V,
                                 back: seq<(string, V)>, resolved: map<int, V>)
    requires forall i :: 0 <= i < |declared| ==> Lower(declared[i]) != Normalise(name)
    ensures Resolve(declared, front + [(name, value)] + back, resolved) == Resolve(declared, front + back, resolved)
  {
    var table := Lookup(declared);
    assert Normalise(name) !in table;
    ResolveWithAppend(table, front + [(name, value)], back, resolved);
    ResolveWithAppend(table, front, [(name, value)], resolved);
    ResolveWithAppend(table, front, back, resolved);
    var mid := ResolveWith(table, front, resolved);
    assert [(name, value)][..0] == [];
    assert ResolveWith(table, [(name, value)], mid) == Step(table, mid, name, value) == mid;
  }

  /**
   Spelling does not matter: two provided names with the same normal form
   (e.g. "dry-run" and "DryRun") have the same effect at the same place.
   */
  lemma ResolveIgnoresSpelling<V>(declared: seq<string>, front: seq<(string, V)>, name: string, name': string,
                                  value: V, back: seq<(string, V)>, resolved: map<int, V>)
    requires Normalise(name) == Normalise(name')
    ensures Resolve(declared, front + [(name, value)] + back, resolved)
         == Resolve(declared, front + [(name', value)] + back, resolved)
  {
    var table := Lookup(declared);
    ResolveWithAppend(table, front + [(name, value)], back, resolved);
    ResolveWithAppend(table, front, [(name, value)], resolved);
    ResolveWithAppend(table, front + [(name', value)], back, resolved);
    ResolveWithAppend(table, front, [(name', value)], resolved);
    assert [(name, value)][..0] == [] && [(name', value)][..0] == [];
  }

  /**
   Idempotence: resolving again with the same declared names and provided
   arguments, from the previous result, returns that result unchanged.
   */
  lemma ResolveIdempotent<V>(declared: seq<string>, provided: seq<(string, V)>, resolved: map<int, V>)
    ensures Resolve(declared, provided, Resolve(declared, provided, resolved)) == Resolve(declared, provided, resolved)
  {
    var table := Lookup(declared);
    var once := ResolveWith(table, provided, resolved);
    var twice := ResolveWith(table, provided, once);
    forall k | k in twice
      ensures k in once
    {
      if k !in once {
        // k is the target of some provided name, so the first pass filled it
        ResolveWithUnresolved(table, provided, once, k);
        ResolveWithUnresolved(table, provided, resolved, k);
      }
    }
  }

  /**
   Consequence of last-write-wins: when two declared names lower-case alike,
   the earlier position is never filled by this resolver.
   */
  lemma ResolveNeverFillsShadowed<V>(declared: seq<string>, provided: seq<(string, V)>, resolved: map<int, V>, i: int, i': int)
    requires 0 <= i < i' < |declared| && Lower(declared[i]) == Lower(declared[i'])
    requires i !in resolved
    ensures i !in Resolve(declared, provided, resolved)
  {
    var table := Lookup(declared);
    LookupLastWriteWins(declared, i');
    // no provided name is looked up at i: the shared key holds i' or later
    assert forall j :: 0 <= j < |provided| ==> !Targets(table, provided[j].0, i);
    ResolveWithUnresolved(table, provided, resolved, i);
  }

  /** The first loop of the routine: the lookup table, filled in declaration order. */
  method BuildLookup(declared: seq<string>) returns (parameters: Table)
    ensures parameters == Lookup(declared)
  {
    parameters := map[];
    for index := 0 to |declared|
      invariant parameters == Lookup(declared[..index])
    {
      assert declared[..index + 1][..index] == declared[..index];
      parameters := parameters[Lower(declared[index]) := index];
    }
    assert declared[..|declared|] == declared;
  }

  /**
   The resolver routine: builds the lookup table from the declared names, then
   visits the provided arguments in order, skipping unknown names and positions
   already resolved.
   */
  method GetParameters<V>(declared: seq<string>, provided: seq<(string, V)>, resolvedParameters: map<int, V>)
    returns (resolved: map<int, V>)
    ensures resolved == Resolve(declared, provided, resolvedParameters)
    ensures forall k :: k in resolvedParameters ==> k in resolved && resolved[k] == resolvedParameters[k]
    ensures forall k :: k in resolved && k !in resolvedParameters ==> 0 <= k < |declared|
  {
    var parameters := BuildLookup(declared);

    resolved := resolvedParameters;
    for i := 0 to |provided|
      invariant resolved == ResolveWith(parameters, provided[..i], resolvedParameters)
    {
      var (name, value) := provided[i];
      assert provided[..i + 1][..i] == provided[..i];
      assert ResolveWith(parameters, provided[..i + 1], resolvedParameters) == Step(parameters, resolved, name, value);
      var normalizedName := Normalise(name);
      // skip names that are not declared
      if normalizedName !in parameters {
        continue;
      }
      var normalizedParameterIndex := parameters[normalizedName];
      // skip parameters already resolved
      if normalizedParameterIndex in resolved {
        continue;
      }
      resolved := resolved[normalizedParameterIndex := value];
    }
    assert provided[..|provided|] == provided;
  }

  /** Lookup tables of the examples. */
  lemma ExampleTables()
    ensures Lookup(["dryRun"]) == map["dryrun" := 0]
    ensures Lookup(["dryrun"]) == map["dryrun" := 0]
    ensures Lookup(["dryRun", "force"]) == map["dryrun" := 0, "force" := 1]
  {
    DryRunLowerCase();
    ForceLiteral();
    var one := ["dryRun"];
    assert one[..0] == [];
    assert Lookup(one) == Lookup([])[Lower("dryRun") := 0];
    var plain := ["dryrun"];
    assert plain[..0] == [];
    assert Lookup(plain) == Lookup([])[Lower("dryrun") := 0];
    var two := ["dryRun", "force"];
    assert two[..1] == one;
    assert Lookup(two) == Lookup(one)[Lower("force") := 1];
  }

  /** The two-parameter example, against its lookup table. */
  lemma ExampleBothSteps(table: Table, dry: string, force: string)
    requires table == map["dryrun" := 0, "force" := 1]
    requires Normalise(dry) == "dryrun" && Normalise(force) == "force"
    ensures ResolveWith(table, [(dry, true), (force, false)], map[]) == map[0 := true, 1 := false]
  {
    var both: seq<(string, bool)> := [(dry, true), (force, false)];
    var one := both[..1];
    assert one == [(dry, true)] && one[..0] == [];
    assert ResolveWith(table, one, map[]) == Step(table, map[], dry, true) == map[0 := true];
    assert both[1] == (force, false);
    assert ResolveWith(table, both, map[]) == Step(table, map[0 := true], force, false);
  }

  /** One argument against a one-parameter lookup table. */
  lemma ExampleOneStep(table: Table, name: string, value: bool, resolved: map<int, bool>)
    requires table == map["dryrun" := 0]
    ensures Normalise(name) == "dryrun" && 0 !in resolved ==> ResolveWith(table, [(name, value)], resolved) == resolved[0 := value]
    ensures Normalise(name) != "dryrun" ==> ResolveWith(table, [(name, value)], resolved) == resolved
    ensures 0 in resolved ==> ResolveWith(table, [(name, value)], resolved) == resolved
  {
    var one: seq<(string, bool)> := [(name, value)];
    assert one[..0] == [];
    assert ResolveWith(table, one, resolved) == Step(table, resolved, name, value);
  }

  /**
   The example of the resolver's own documentation: "dry-run" => true fills a
   parameter declared as either "dryRun" or "dryrun".
   */
  lemma ExampleDocumented()
    ensures Resolve(["dryRun"], [("dry-run", true)], map[]) == map[0 := true]
    ensures Resolve(["dryrun"], [("dry-run", true)], map[]) == map[0 := true]
  {
    ExampleTables();
    DryRunSpellings();
    ExampleOneStep(Lookup(["dryRun"]), "dry-run", true, map[]);
    ExampleOneStep(Lookup(["dryrun"]), "dry-run", true, map[]);
  }

  /** Example: "dry-run" fills "dryRun" and "force" fills "force". */
  lemma ExampleBothResolved()
    ensures Resolve(["dryRun", "force"], [("dry-run", true), ("force", false)], map[]) == map[0 := true, 1 := false]
  {
    ExampleTables();
    ForceLiteral();
    DryRunSpellings();
    ExampleBothSteps(Lookup(["dryRun", "force"]), "dry-run", "force");
  }

  /**
   Examples: a provided name matching no declared parameter adds nothing, and
   a position resolved before keeps its value.
   */
  lemma ExampleNothingAdded()
    ensures Resolve(["dryRun"], [("quiet", true)], map[]) == map[]
    ensures Resolve(["dryRun"], [("dry-run", false)], map[0 := true]) == map[0 := true]
  {
    ExampleTables();
    // "quiet" is too short to normalise to "dryrun"
    ExampleOneStep(Lookup(["dryRun"]), "quiet", true, map[]);
    ExampleOneStep(Lookup(["dryRun"]), "dry-run", false, map[0 := true]);
  }
}
