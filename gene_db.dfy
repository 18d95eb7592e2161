/**
 * The Entrez-id to official-symbol map built from an interaction table, and the
 * lookup that translates one id or a sequence of ids (genes/gene_db.py).
 *
 * The object is never changed after construction, so it is modelled as a value:
 * construction is the function `New`, lookup a function of the built map.
 */
module GeneDb {

  /** One row of the interaction table, reduced to the four columns the map is built
      from: the Entrez id and official symbol of interactor A and of interactor B. */
  datatype Interaction = Interaction(entrezA: string, symbolA: string, entrezB: string, symbolB: string)

  /** What the constructor may be given: a path to a tab-separated file, an already
      loaded table, or a value of any other type. */
  datatype GenesArg = Path(path: string) | Frame(rows: seq<Interaction>) | OtherValue

  /** What a lookup may be given: one id as a string, any other iterable of ids,
      or a value that is neither. */
  datatype EntrezArg = Str(id: string) | Iterable(ids: seq<string>) | NotIterable

  /** A lookup returns one symbol for a string and a list of symbols otherwise. */
  datatype Symbols = Single(symbol: string) | List(symbols: seq<string>)

  datatype Error = TypeError | KeyError(key: string)

  datatype Result<T> = Ok(value: T) | Err(error: Error)

  /** An (Entrez id, official symbol) pair. */
  type Pair = (string, string)

  // ---------------------------------------------------------------------------
  // Columns and de-duplication
  // ---------------------------------------------------------------------------

  /** The (Entrez id, symbol) pairs of interactor A, one per row. */
  function InteractorA(rows: seq<Interaction>): (pairs: seq<Pair>)
    ensures |pairs| == |rows|
    ensures forall i :: 0 <= i < |rows| ==> pairs[i] == (rows[i].entrezA, rows[i].symbolA)
  {
    seq(|rows|, i requires 0 <= i < |rows| => (rows[i].entrezA, rows[i].symbolA))
  }

  /** The (Entrez id, symbol) pairs of interactor B, one per row. */
  function InteractorB(rows: seq<Interaction>): (pairs: seq<Pair>)
    ensures |pairs| == |rows|
    ensures forall i :: 0 <= i < |rows| ==> pairs[i] == (rows[i].entrezB, rows[i].symbolB)
  {
    seq(|rows|, i requires 0 <= i < |rows| => (rows[i].entrezB, rows[i].symbolB))
  }

  predicate NoDuplicates(s: seq<Pair>)
  {
    forall i, j :: 0 <= i < j < |s| ==> s[i] != s[j]
  }

  /** pandas `drop_duplicates()` with its default `keep='first'`: every pair that
      already occurred earlier is dropped, and the survivors keep their order. */
  function DropDuplicates(s: seq<Pair>): (d: seq<Pair>)
    ensures forall p :: p in d <==> p in s
    ensures NoDuplicates(d)
    ensures |d| <= |s|
  {
    if s == [] then []
    else
      var init, last := s[..|s| - 1], s[|s| - 1];
      var kept := DropDuplicates(init);
      assert forall p :: p in s <==> p in init || p == last by {
        assert s == init + [last];
      }
      if last in init then kept else kept + [last]
  }

  /** First occurrences keep their order: de-duplicating a prefix gives a prefix of the
      de-duplicated whole. With the two properties above this fixes the result. */
  lemma {:induction false} DropDuplicatesPrefix(s: seq<Pair>, k: nat)
    requires k <= |s|
    ensures DropDuplicates(s[..k]) <= DropDuplicates(s)
  {
    if k < |s| {
      var n := |s| - 1;
      DropDuplicatesPrefix(s[..n], k);
      assert s[..n][..k] == s[..k];
    } else {
      assert s[..k] == s;
    }
  }

  // ---------------------------------------------------------------------------
  // Building the map
  // ---------------------------------------------------------------------------

  /** The dict comprehension `{id: symbol for id, symbol in pairs}`: pairs are inserted
      in order, so a later pair overwrites an earlier one with the same id. */
  function ToDict(pairs: seq<Pair>): (m: map<string, string>)
    ensures forall id :: id in m <==> exists p :: p in pairs && p.0 == id
    ensures forall id :: id in m ==> (id, m[id]) in pairs
  {
    if pairs == [] then map[]
    else
      var init, last := pairs[..|pairs| - 1], pairs[|pairs| - 1];
      assert pairs == init + [last];
      ToDict(init)[last.0 := last.1]
  }

  /** The last pair for an id decides its symbol. */
  lemma {:induction false} LastPairWins(pairs: seq<Pair>, i: nat)
    requires i < |pairs|
    requires forall j :: i < j < |pairs| ==> pairs[j].0 != pairs[i].0
    ensures pairs[i].0 in ToDict(pairs) && ToDict(pairs)[pairs[i].0] == pairs[i].1
  {
    var n := |pairs| - 1;
    if i < n {
      LastPairWins(pairs[..n], i);
    }
  }

  /** The pairs the map is built from: the distinct A pairs, then the distinct B pairs. */
  function SymbolPairs(rows: seq<Interaction>): seq<Pair>
  {
    DropDuplicates(InteractorA(rows)) + DropDuplicates(InteractorB(rows))
  }

  /** `id` appears in the A or the B Entrez column. */
  predicate IsInteractor(rows: seq<Interaction>, id: string)
  {
    exists i :: 0 <= i < |rows| && (rows[i].entrezA == id || rows[i].entrezB == id)
  }

  /** Some row pairs `id` with `symbol`, on the A side or on the B side. */
  predicate PairedInTable(rows: seq<Interaction>, id: string, symbol: string)
  {
    exists i :: 0 <= i < |rows| &&
      ((rows[i].entrezA == id && rows[i].symbolA == symbol) ||
       (rows[i].entrezB == id && rows[i].symbolB == symbol))
  }

  /** The id-to-symbol map of a table: the pairs inserted in order. */
  function BuildMap(rows: seq<Interaction>): map<string, string>
  {
    ToDict(SymbolPairs(rows))
  }

  /** Every interactor id is a key, every key is an interactor id, and each key maps to
      a symbol the table pairs it with. */
  lemma BuildMapCovers(rows: seq<Interaction>)
    ensures forall id :: id in BuildMap(rows) <==> IsInteractor(rows, id)
    ensures forall id :: id in BuildMap(rows) ==> PairedInTable(rows, id, BuildMap(rows)[id])
  {
    SymbolPairsCover(rows);
  }

  /** The pairs mention exactly the ids of the two Entrez columns, and each pair comes
      from one row's A side or B side. */
  lemma SymbolPairsCover(rows: seq<Interaction>)
    ensures forall id :: (exists p :: p in SymbolPairs(rows) && p.0 == id) <==> IsInteractor(rows, id)
    ensures forall p :: p in SymbolPairs(rows) ==> PairedInTable(rows, p.0, p.1)
  {
    SymbolPairsFromRows(rows);
    SymbolPairsReachIds(rows);
  }

  lemma SymbolPairsFromRows(rows: seq<Interaction>)
    ensures forall p :: p in SymbolPairs(rows) ==> PairedInTable(rows, p.0, p.1)
  {
    var a, b := InteractorA(rows), InteractorB(rows);
    forall p | p in SymbolPairs(rows) ensures PairedInTable(rows, p.0, p.1) {
      if p in a {
        var i :| 0 <= i < |a| && a[i] == p;
      } else {
        var i :| 0 <= i < |b| && b[i] == p;
      }
    }
  }

  lemma SymbolPairsReachIds(rows: seq<Interaction>)
    ensures forall id :: IsInteractor(rows, id) ==> exists p :: p in SymbolPairs(rows) && p.0 == id
  {
    var a, b := InteractorA(rows), InteractorB(rows);
    var pairs := SymbolPairs(rows);
    forall id | IsInteractor(rows, id) ensures exists p :: p in pairs && p.0 == id {
      var i :| 0 <= i < |rows| && (rows[i].entrezA == id || rows[i].entrezB == id);
      if rows[i].entrezA == id {
        assert a[i] in pairs;
      } else {
        assert b[i] in pairs;
      }
    }
  }

  /** A B-side pairing overrides an A-side one: an id that appears in the B column maps
      to a symbol it is paired with on the B side. */
  lemma BSideWins(rows: seq<Interaction>, id: string)
    requires exists i :: 0 <= i < |rows| && rows[i].entrezB == id
    ensures id in BuildMap(rows)
    ensures exists i :: 0 <= i < |rows| && rows[i].entrezB == id && rows[i].symbolB == BuildMap(rows)[id]
  {
    var a, b := DropDuplicates(InteractorA(rows)), DropDuplicates(InteractorB(rows));
    var pairs := SymbolPairs(rows);
    var r :| 0 <= r < |rows| && rows[r].entrezB == id;
    assert InteractorB(rows)[r] in b;
    var t :| 0 <= t < |b| && b[t] == InteractorB(rows)[r];
    assert pairs[|a| + t] == b[t];
    // the last pair of `pairs` whose id is `id` lies in the B part
    var k := LastWithId(pairs, id, |a|);
    LastPairWins(pairs, k);
    var q := k - |a|;
    assert 0 <= q < |b| && pairs[k] == b[q];
    assert b[q] in InteractorB(rows);
    var j :| 0 <= j < |rows| && InteractorB(rows)[j] == b[q];
    assert rows[j].entrezB == id && rows[j].symbolB == BuildMap(rows)[id];
  }

  /** Every key maps to the symbol of the last pair with that id among the distinct A
      pairs followed by the distinct B pairs. */
  lemma MapIsLastPair(rows: seq<Interaction>, id: string)
    requires IsInteractor(rows, id)
    ensures id in BuildMap(rows)
    ensures exists k ::
      && 0 <= k < |SymbolPairs(rows)|
      && SymbolPairs(rows)[k] == (id, BuildMap(rows)[id])
      && forall j :: k < j < |SymbolPairs(rows)| ==> SymbolPairs(rows)[j].0 != id
  {
    var pairs := SymbolPairs(rows);
    SymbolPairsCover(rows);
    var p :| p in pairs && p.0 == id;
    var i :| 0 <= i < |pairs| && pairs[i] == p;
    var k := LastWithId(pairs, id, 0);
    LastPairWins(pairs, k);
    assert pairs[k] == (id, BuildMap(rows)[id]);
  }

  /** De-duplication happens before the map is built, so it can decide the winner: when
      A-side rows pair an id with symbol x, then y, then x again (and the B side never
      names that id), the second x is dropped and the id maps to y, not to the symbol of
      the table's last row. */
  lemma DeduplicationDecidesWinner(id: string, x: string, y: string, other: string, z: string)
    requires x != y && other != id
    ensures BuildMap([Interaction(id, x, other, z), Interaction(id, y, other, z),
                      Interaction(id, x, other, z)])[id] == y
  {
    var rows := [Interaction(id, x, other, z), Interaction(id, y, other, z),
                 Interaction(id, x, other, z)];
    var px, py, pz := (id, x), (id, y), (other, z);
    assert InteractorA(rows) == [px, py, px];
    assert InteractorB(rows) == [pz, pz, pz];
    DropRepeated(px, py);
    DropConstant(pz);
    var pairs := SymbolPairs(rows);
    assert pairs == [px, py, pz];
    MiddleOfThreeWins(px, py, pz);
  }

  /** Of three pairs, the middle one decides its id's symbol when the last names
      another id. */
  lemma MiddleOfThreeWins(p: Pair, q: Pair, r: Pair)
    requires r.0 != q.0
    ensures ToDict([p, q, r])[q.0] == q.1
  {
    LastPairWins([p, q, r], 1);
  }

  /** De-duplicating x, y, x keeps the first x and drops the second. */
  lemma DropRepeated(x: Pair, y: Pair)
    requires x != y
    ensures DropDuplicates([x, y, x]) == [x, y]
  {
    var s := [x, y, x];
    assert s[..1] == [x] && s[..2] == [x, y] && [x, y][..1] == [x] && [x][..0] == [];
  }

  /** De-duplicating z, z, z keeps one z. */
  lemma DropConstant(z: Pair)
    ensures DropDuplicates([z, z, z]) == [z]
  {
    var s := [z, z, z];
    assert s[..1] == [z] && s[..2] == [z, z] && [z, z][..1] == [z] && [z][..0] == [];
  }

  /** The index of the last pair with id `id`, given that one exists at or after `from`. */
  lemma LastWithId(pairs: seq<Pair>, id: string, from: nat) returns (k: nat)
    requires from <= |pairs|
    requires exists i :: from <= i < |pairs| && pairs[i].0 == id
    ensures from <= k < |pairs| && pairs[k].0 == id
    ensures forall j :: k < j < |pairs| ==> pairs[j].0 != id
    decreases |pairs| - from
  {
    if pairs[from].0 == id && forall j :: from < j < |pairs| ==> pairs[j].0 != id {
      k := from;
    } else {
      k := LastWithId(pairs, id, from + 1);
    }
  }

  // ---------------------------------------------------------------------------
  // The GeneDB object
  // ---------------------------------------------------------------------------

  /** The loaded table and the id-to-symbol map built from it. */
  datatype GeneDB = GeneDB(genes: seq<Interaction>, entrezGenes: map<string, string>)
  {
    /** to_official_symbol_interactor: a string is one id and gives one symbol; any other
        iterable gives the list of the symbols of its ids, in order; an unknown id fails
        with a key error, and any other argument with a type error. */
    function ToOfficialSymbolInteractor(entrezId: EntrezArg): (r: Result<Symbols>)
      ensures entrezId.Str? ==>
        (r.Ok? <==> entrezId.id in entrezGenes) &&
        (r.Ok? ==> r.value == Single(entrezGenes[entrezId.id])) &&
        (r.Err? ==> r.error == KeyError(entrezId.id))
      ensures entrezId.Iterable? ==>
        (r.Ok? <==> forall i :: 0 <= i < |entrezId.ids| ==> entrezId.ids[i] in entrezGenes) &&
        (r.Ok? ==> r.value.List? && |r.value.symbols| == |entrezId.ids| &&
                   forall i :: 0 <= i < |entrezId.ids| ==>
                     r.value.symbols[i] == entrezGenes[entrezId.ids[i]]) &&
        (r.Err? ==> exists i :: 0 <= i < |entrezId.ids| && r.error == KeyError(entrezId.ids[i]) &&
                      entrezId.ids[i] !in entrezGenes &&
                      forall j :: 0 <= j < i ==> entrezId.ids[j] in entrezGenes)
      ensures entrezId.NotIterable? ==> r == Err(TypeError)
    {
      match entrezId
      case Str(id) => if id in entrezGenes then Ok(Single(entrezGenes[id])) else Err(KeyError(id))
      case Iterable(ids) =>
        (match LookupAll(entrezGenes, ids)
         case Ok(symbols) => Ok(List(symbols))
         case Err(e) => Err(e))
      case NotIterable => Err(TypeError)
    }
  }

  /** The list comprehension `[m[id] for id in ids]`: ids are looked up in order and the
      first one missing raises a key error. */
  function LookupAll(m: map<string, string>, ids: seq<string>): (r: Result<seq<string>>)
    ensures r.Ok? <==> forall i :: 0 <= i < |ids| ==> ids[i] in m
    ensures r.Ok? ==> |r.value| == |ids| && forall i :: 0 <= i < |ids| ==> r.value[i] == m[ids[i]]
    ensures r.Err? ==> exists i :: 0 <= i < |ids| && r.error == KeyError(ids[i]) && ids[i] !in m &&
                         forall j :: 0 <= j < i ==> ids[j] in m
  {
    if ids == [] then Ok([])
    else if ids[0] !in m then Err(KeyError(ids[0]))
    else
      match LookupAll(m, ids[1..])
      case Ok(rest) => Ok([m[ids[0]]] + rest)
      case Err(e) =>
        assert exists i :: 1 <= i < |ids| && e == KeyError(ids[i]) && ids[i] !in m &&
                             forall j :: 0 <= j < i ==> ids[j] in m by {
          var i :| 0 <= i < |ids[1..]| && e == KeyError(ids[1..][i]) && ids[1..][i] !in m &&
                   forall j :: 0 <= j < i ==> ids[1..][j] in m;
          assert forall j :: 1 <= j < i + 1 ==> ids[j] == ids[1..][j - 1];
        }
        Err(e)
  }

  /** __init__: a path is read with `readTable` (standing for `pd.read_csv(path, sep="\t")`),
      a table is used as given, and anything else is a type error. The map's keys are
      exactly the interactor ids of the table, each mapped to a symbol it is paired with. */
  function New(genes: GenesArg, readTable: string -> seq<Interaction>): (r: Result<GeneDB>)
    ensures r.Err? <==> genes.OtherValue?
    ensures r.Err? ==> r.error == TypeError
    ensures genes.Path? ==> r.Ok? && r.value.genes == readTable(genes.path)
    ensures genes.Frame? ==> r.Ok? && r.value.genes == genes.rows
    ensures r.Ok? ==> r.value.entrezGenes == BuildMap(r.value.genes)
    ensures r.Ok? ==> forall id :: id in r.value.entrezGenes <==> IsInteractor(r.value.genes, id)
    ensures r.Ok? ==> forall id :: id in r.value.entrezGenes ==>
      PairedInTable(r.value.genes, id, r.value.entrezGenes[id])
  {
    match genes
    case Path(path) =>
      var rows := readTable(path);
      BuildMapCovers(rows);
      Ok(GeneDB(rows, BuildMap(rows)))
    case Frame(rows) =>
      BuildMapCovers(rows);
      Ok(GeneDB(rows, BuildMap(rows)))
    case OtherValue => Err(TypeError)
  }

  /** An id that the table always pairs with the same symbol looks up to that symbol as
      a single string (the repository's test expects "6416" to give "MAP2K4"). */
  lemma ConsistentIdLookup(rows: seq<Interaction>, id: string, symbol: string)
    requires IsInteractor(rows, id)
    requires forall s :: PairedInTable(rows, id, s) ==> s == symbol
    ensures New(Frame(rows), _ => []).Ok?
    ensures New(Frame(rows), _ => []).value.ToOfficialSymbolInteractor(Str(id)) == Ok(Single(symbol))
  {
    var m := New(Frame(rows), _ => []).value.entrezGenes;
    assert PairedInTable(rows, id, m[id]);
  }
}
