/**
 * The comparison of a Rust pipeline's results with a WDL pipeline's results
 * for the same consensus-genome run: the two variant maps, the two consensus
 * sequences and the two statistics dictionaries. The file parsers (VCF/BCF,
 * FASTA, JSON) are represented by what they deliver: a sequence of variant
 * records, a sequence of FASTA record sequences, a dictionary of JSON values.
 * Everything printed is left out; each comparison's findings are returned
 * instead.
 */
module CompareValidate {
  import opened PyStr

  datatype Result<T, E> = Ok(value: T) | Err(error: E)

  // ---------------------------------------------------------------------
  // Python's ordering of strings, and `sorted`
  // ---------------------------------------------------------------------

  /** `a <= b` on Python strings: code point by code point, a proper prefix
      first. */
  predicate StrLe(a: string, b: string)
    decreases |a|
  {
    a == [] || (b != [] && (a[0] < b[0] || (a[0] == b[0] && StrLe(a[1..], b[1..]))))
  }

  lemma {:induction false} StrLeTotal(a: string, b: string)
    ensures StrLe(a, b) || StrLe(b, a)
    decreases |a|
  {
    if a != [] && b != [] && a[0] == b[0] {
      StrLeTotal(a[1..], b[1..]);
    }
  }

  lemma {:induction false} StrLeReflexive(a: string)
    ensures StrLe(a, a)
    decreases |a|
  {
    if a != [] {
      StrLeReflexive(a[1..]);
    }
  }

  lemma {:induction false} StrLeAntisymmetric(a: string, b: string)
    requires StrLe(a, b) && StrLe(b, a)
    ensures a == b
    decreases |a|
  {
    if a != [] {
      StrLeAntisymmetric(a[1..], b[1..]);
      assert a == [a[0]] + a[1..] && b == [b[0]] + b[1..];
    }
  }

  lemma {:induction false} StrLeTransitive(a: string, b: string, c: string)
    requires StrLe(a, b) && StrLe(b, c)
    ensures StrLe(a, c)
    decreases |a|
  {
    if a != [] && a[0] == b[0] && b[0] == c[0] {
      StrLeTransitive(a[1..], b[1..], c[1..]);
    }
  }

  predicate Sorted(s: seq<string>) {
    forall i, j :: 0 <= i < j < |s| ==> StrLe(s[i], s[j])
  }

  /** `x` placed before the first element it does not exceed. */
  function Insert(x: string, s: seq<string>): seq<string> {
    if s == [] then [x]
    else if StrLe(x, s[0]) then [x] + s
    else [s[0]] + Insert(x, s[1..])
  }

  /** `sorted(s)` by insertion. */
  function SortStrings(s: seq<string>): seq<string> {
    if s == [] then [] else Insert(s[|s| - 1], SortStrings(s[..|s| - 1]))
  }

  /** Inserting adds just `x`. */
  lemma {:induction false} InsertMultiset(x: string, s: seq<string>)
    ensures multiset(Insert(x, s)) == multiset(s) + multiset{x}
  {
    if s != [] && !StrLe(x, s[0]) {
      InsertMultiset(x, s[1..]);
      assert s == [s[0]] + s[1..];
    }
  }

  /** `h` followed by a sorted list it does not exceed is sorted. */
  lemma SortedCons(h: string, t: seq<string>)
    requires Sorted(t) && forall j :: 0 <= j < |t| ==> StrLe(h, t[j])
    ensures Sorted([h] + t)
  {
    var r := [h] + t;
    forall i, j | 0 <= i < j < |r|
      ensures StrLe(r[i], r[j])
    {
      assert r[j] == t[j - 1];
      if i > 0 {
        assert r[i] == t[i - 1];
      }
    }
  }

  /** The tail of a sorted list is sorted. */
  lemma SortedTail(s: seq<string>)
    requires Sorted(s) && s != []
    ensures Sorted(s[1..])
  {
    forall i, j | 0 <= i < j < |s[1..]|
      ensures StrLe(s[1..][i], s[1..][j])
    {
      assert s[1..][i] == s[i + 1] && s[1..][j] == s[j + 1];
    }
  }

  /** Inserting into a sorted list keeps it sorted. */
  lemma {:induction false} InsertSorted(x: string, s: seq<string>)
    requires Sorted(s)
    ensures Sorted(Insert(x, s))
  {
    if s == [] {
    } else if StrLe(x, s[0]) {
      forall j | 0 <= j < |s|
        ensures StrLe(x, s[j])
      {
        if j > 0 {
          StrLeTransitive(x, s[0], s[j]);
        }
      }
      SortedCons(x, s);
    } else {
      var t := Insert(x, s[1..]);
      SortedTail(s);
      InsertSorted(x, s[1..]);
      InsertMultiset(x, s[1..]);
      StrLeTotal(x, s[0]);
      forall j | 0 <= j < |t|
        ensures StrLe(s[0], t[j])
      {
        assert t[j] in multiset(t);
        if t[j] != x {
          assert t[j] in multiset(s[1..]);
          var k :| 0 <= k < |s[1..]| && s[1..][k] == t[j];
          assert s[k + 1] == t[j];
        }
      }
      SortedCons(s[0], t);
    }
  }

  /** `sorted(s)` is sorted and holds the same elements as `s`. */
  lemma {:induction false} SortStringsProperties(s: seq<string>)
    ensures Sorted(SortStrings(s)) && multiset(SortStrings(s)) == multiset(s)
  {
    if s != [] {
      var init := s[..|s| - 1];
      SortStringsProperties(init);
      InsertSorted(s[|s| - 1], SortStrings(init));
      InsertMultiset(s[|s| - 1], SortStrings(init));
      assert s == init + [s[|s| - 1]];
    }
  }

  /** Two sorted lists with the same elements are equal. */
  lemma {:induction false} SortedUnique(a: seq<string>, b: seq<string>)
    requires Sorted(a) && Sorted(b) && multiset(a) == multiset(b)
    ensures a == b
  {
    if a != [] {
      assert |b| == |a| by {
        assert |multiset(a)| == |a| && |multiset(b)| == |b|;
      }
      assert a[0] == b[0] by {
        assert a[0] in multiset(b) && b[0] in multiset(a) by {
          assert a[0] in multiset(a) && b[0] in multiset(b);
        }
        var i :| 0 <= i < |a| && a[i] == b[0];
        var j :| 0 <= j < |b| && b[j] == a[0];
        StrLeReflexive(a[0]);
        StrLeReflexive(b[0]);
        assert StrLe(a[0], b[0]) && StrLe(b[0], a[0]);
        StrLeAntisymmetric(a[0], b[0]);
      }
      assert a == [a[0]] + a[1..] && b == [b[0]] + b[1..];
      assert multiset(a[1..]) == multiset(a) - multiset{a[0]} by {
        assert multiset(a) == multiset([a[0]]) + multiset(a[1..]);
      }
      assert multiset(b[1..]) == multiset(b) - multiset{b[0]} by {
        assert multiset(b) == multiset([b[0]]) + multiset(b[1..]);
      }
      SortedTail(a);
      SortedTail(b);
      SortedUnique(a[1..], b[1..]);
    }
  }

  /** Sorting makes the order of the input irrelevant, and nothing else: two
      lists sort alike exactly when they hold the same elements. */
  lemma SortCanonical(a: seq<string>, b: seq<string>)
    ensures SortStrings(a) == SortStrings(b) <==> multiset(a) == multiset(b)
  {
    SortStringsProperties(a);
    SortStringsProperties(b);
    if multiset(a) == multiset(b) {
      SortedUnique(SortStrings(a), SortStrings(b));
    }
  }

  // ---------------------------------------------------------------------
  // Variants
  // ---------------------------------------------------------------------

  /** A VCF/BCF record as the reader yields it; `alts` is `None` for a
      record without alternate alleles. */
  datatype VcfRecord = VcfRecord(contig: string, pos: int, ref: string, alts: Option<seq<string>>)

  /** The position a variant is keyed by: `(contig, pos)`. */
  datatype Key = Key(contig: string, pos: int)

  /** `(ref, alts)` with the alternate alleles sorted. */
  datatype Variant = Variant(ref: string, alts: seq<string>)

  /** Why `load_variants` gives up: `sorted(None)` raises `TypeError` on a
      record without alternate alleles, and a repeated position raises
      `ValueError`. */
  datatype VariantError = NoAlts(at: Key) | Duplicate(key: Key)

  function KeyOf(r: VcfRecord): Key {
    Key(r.contig, r.pos)
  }

  function VariantOf(r: VcfRecord): Variant
    requires r.alts.Some?
  {
    Variant(r.ref, SortStrings(r.alts.value))
  }

  /** The records `recs` added to the map `m` in order, stopping at the
      first one that raises. */
  function AddVariants(m: map<Key, Variant>, recs: seq<VcfRecord>): Result<map<Key, Variant>, VariantError>
    decreases |recs|
  {
    if recs == [] then Ok(m)
    else
      var r := recs[0];
      if r.alts.None? then Err(NoAlts(KeyOf(r)))
      else if KeyOf(r) in m then Err(Duplicate(KeyOf(r)))
      else AddVariants(m[KeyOf(r) := VariantOf(r)], recs[1..])
  }

  /** `load_variants` on a file holding `recs`. */
  function Variants(recs: seq<VcfRecord>): Result<map<Key, Variant>, VariantError> {
    AddVariants(map[], recs)
  }

  /** `load_variants(file_path)`: the loop over the records. */
  method LoadVariants(recs: seq<VcfRecord>) returns (r: Result<map<Key, Variant>, VariantError>)
    ensures r == Variants(recs)
  {
    var variants: map<Key, Variant> := map[];
    for i := 0 to |recs|
      invariant AddVariants(variants, recs[i..]) == Variants(recs)
    {
      var rec := recs[i];
      assert recs[i..][1..] == recs[i + 1..];
      if rec.alts.None? {
        return Err(NoAlts(KeyOf(rec)));
      }
      var alts := SortStrings(rec.alts.value);
      var key := KeyOf(rec);
      if key in variants {
        return Err(Duplicate(key));
      }
      variants := variants[key := Variant(rec.ref, alts)];
    }
    assert recs[|recs|..] == [];
    return Ok(variants);
  }

  /** Every record has alternate alleles, and no two share a position. */
  predicate Loadable(recs: seq<VcfRecord>) {
    (forall i :: 0 <= i < |recs| ==> recs[i].alts.Some?) &&
    (forall i, j :: 0 <= i < j < |recs| ==> KeyOf(recs[i]) != KeyOf(recs[j]))
  }

  /** The positions of the records. */
  function Positions(recs: seq<VcfRecord>): set<Key> {
    set i | 0 <= i < |recs| :: KeyOf(recs[i])
  }

  /** `Loadable` one record at a time. */
  lemma LoadableCons(recs: seq<VcfRecord>)
    requires recs != []
    ensures Loadable(recs) <==>
      recs[0].alts.Some? && Loadable(recs[1..]) &&
      forall i :: 0 <= i < |recs[1..]| ==> KeyOf(recs[1..][i]) != KeyOf(recs[0])
  {
    var t := recs[1..];
    assert forall i :: 0 < i < |recs| ==> recs[i] == t[i - 1];
    if recs[0].alts.Some? && Loadable(t) && forall i :: 0 <= i < |t| ==> KeyOf(t[i]) != KeyOf(recs[0]) {
      forall i, j | 0 <= i < j < |recs|
        ensures KeyOf(recs[i]) != KeyOf(recs[j])
      {
        if i > 0 {
          assert KeyOf(t[i - 1]) != KeyOf(t[j - 1]);
        }
      }
    }
    if Loadable(recs) {
      forall i, j | 0 <= i < j < |t|
        ensures KeyOf(t[i]) != KeyOf(t[j])
      {
        assert KeyOf(recs[i + 1]) != KeyOf(recs[j + 1]);
      }
    }
  }

  /** `Positions` one record at a time. */
  lemma PositionsCons(recs: seq<VcfRecord>)
    requires recs != []
    ensures Positions(recs) == {KeyOf(recs[0])} + Positions(recs[1..])
  {
    var t := recs[1..];
    forall k | k in Positions(recs)
      ensures k in {KeyOf(recs[0])} + Positions(t)
    {
      var i :| 0 <= i < |recs| && KeyOf(recs[i]) == k;
      if i > 0 {
        assert KeyOf(t[i - 1]) == k;
      }
    }
    forall k | k in Positions(t)
      ensures k in Positions(recs)
    {
      var i :| 0 <= i < |t| && KeyOf(t[i]) == k;
      assert KeyOf(recs[i + 1]) == k;
    }
  }

  /** Adding records succeeds exactly when they are loadable and none of
      their positions is already in the map. */
  lemma {:induction false} AddVariantsOk(m: map<Key, Variant>, recs: seq<VcfRecord>)
    ensures AddVariants(m, recs).Ok? <==>
      Loadable(recs) && forall i :: 0 <= i < |recs| ==> KeyOf(recs[i]) !in m
    decreases |recs|
  {
    if recs != [] {
      var r := recs[0];
      var t := recs[1..];
      LoadableCons(recs);
      assert forall i :: 0 < i < |recs| ==> recs[i] == t[i - 1];
      if r.alts.Some? && KeyOf(r) !in m {
        AddVariantsOk(m[KeyOf(r) := VariantOf(r)], t);
      }
    }
  }

  /** What a successful addition holds: the map's entries, and each
      record's position mapped to its variant. */
  lemma {:induction false} AddVariantsContents(m: map<Key, Variant>, recs: seq<VcfRecord>)
    requires AddVariants(m, recs).Ok?
    ensures var v := AddVariants(m, recs).value;
      v.Keys == m.Keys + Positions(recs) &&
      (forall k :: k in m ==> v[k] == m[k]) &&
      (forall i :: 0 <= i < |recs| ==> recs[i].alts.Some? && v[KeyOf(recs[i])] == VariantOf(recs[i]))
    decreases |recs|
  {
    if recs != [] {
      var r := recs[0];
      var t := recs[1..];
      var m' := m[KeyOf(r) := VariantOf(r)];
      AddVariantsContents(m', t);
      PositionsCons(recs);
      var v := AddVariants(m, recs).value;
      forall i | 0 <= i < |recs|
        ensures recs[i].alts.Some? && v[KeyOf(recs[i])] == VariantOf(recs[i])
      {
        if i > 0 {
          assert recs[i] == t[i - 1];
        }
      }
    }
  }

  /** `load_variants` succeeds exactly when every record has alternate
      alleles and no position repeats; it then maps each record's position
      to its reference allele and its sorted alternate alleles, and holds
      no other position. */
  lemma VariantsLoaded(recs: seq<VcfRecord>)
    ensures Variants(recs).Ok? <==> Loadable(recs)
    ensures Variants(recs).Ok? ==>
      var v := Variants(recs).value;
      v.Keys == Positions(recs) &&
      forall i :: 0 <= i < |recs| ==>
        v[KeyOf(recs[i])] == Variant(recs[i].ref, SortStrings(recs[i].alts.value))
  {
    AddVariantsOk(map[], recs);
    if Variants(recs).Ok? {
      AddVariantsContents(map[], recs);
    }
  }

  /** A repeated position is reported: two records at one position make
      `load_variants` fail. */
  lemma DuplicateRejected(recs: seq<VcfRecord>, i: nat, j: nat)
    requires i < j < |recs| && KeyOf(recs[i]) == KeyOf(recs[j])
    ensures Variants(recs).Err?
  {
    VariantsLoaded(recs);
  }

  /** The order in which a record lists its alternate alleles does not
      matter. */
  lemma AltOrderIrrelevant(a: VcfRecord, b: VcfRecord)
    requires a.alts.Some? && b.alts.Some? && a.ref == b.ref
    ensures VariantOf(a) == VariantOf(b) <==> multiset(a.alts.value) == multiset(b.alts.value)
  {
    SortCanonical(a.alts.value, b.alts.value);
  }

  /** The findings of `compare_variants`: the positions in both maps, in
      only one of them, and the common ones whose values differ. */
  datatype VariantComparison = VariantComparison(
    common: set<Key>, rustOnly: set<Key>, wdlOnly: set<Key>, mismatches: set<Key>)

  /** `compare_variants(rust_vars, wdl_vars)` */
  function CompareVariants(rust: map<Key, Variant>, wdl: map<Key, Variant>): (c: VariantComparison)
    ensures c.common !! c.rustOnly && c.common !! c.wdlOnly && c.rustOnly !! c.wdlOnly
    ensures c.common + c.rustOnly + c.wdlOnly == rust.Keys + wdl.Keys
    ensures c.common + c.rustOnly == rust.Keys && c.common + c.wdlOnly == wdl.Keys
    ensures forall k :: k in c.mismatches <==> k in rust && k in wdl && rust[k] != wdl[k]
  {
    var common := rust.Keys * wdl.Keys;
    VariantComparison(common, rust.Keys - wdl.Keys, wdl.Keys - rust.Keys,
                      set k | k in common && rust[k] != wdl[k])
  }

  /** The comparison reports nothing exactly when the two maps are equal. */
  lemma NothingReportedIffEqual(rust: map<Key, Variant>, wdl: map<Key, Variant>)
    ensures var c := CompareVariants(rust, wdl);
      (c.rustOnly == {} && c.wdlOnly == {} && c.mismatches == {}) <==> rust == wdl
  {
    var c := CompareVariants(rust, wdl);
    if c.rustOnly == {} && c.wdlOnly == {} && c.mismatches == {} {
      assert rust.Keys == wdl.Keys;
      forall k | k in rust
        ensures rust[k] == wdl[k]
      {
        assert k !in c.mismatches;
      }
    }
  }

  /** Swapping the two maps swaps the one-sided findings and keeps the rest. */
  lemma CompareVariantsSymmetric(rust: map<Key, Variant>, wdl: map<Key, Variant>)
    ensures var c, d := CompareVariants(rust, wdl), CompareVariants(wdl, rust);
      c.common == d.common && c.rustOnly == d.wdlOnly && c.wdlOnly == d.rustOnly &&
      c.mismatches == d.mismatches
  {
  }

  // ---------------------------------------------------------------------
  // Consensus sequences
  // ---------------------------------------------------------------------

  /** Why `load_fasta` gives up: `ValueError` for no record, and for more
      than one. */
  datatype FastaError = NoSequences | MultipleSequences

  /** `load_fasta(file_path)` on a file whose records have the sequences
      `records`. */
  function LoadFasta(records: seq<string>): (r: Result<string, FastaError>)
    ensures r.Ok? <==> |records| == 1
    ensures r == Err(NoSequences) <==> records == []
    ensures r.Ok? ==> (|r.value| == |records[0]| &&
      forall i :: 0 <= i < |r.value| ==> !IsAsciiLower(r.value[i]) && UpperChar(r.value[i]) == UpperChar(records[0][i]))
  {
    if |records| == 0 then Err(NoSequences)
    else if |records| > 1 then Err(MultipleSequences)
    else Ok(Upper(records[0]))
  }

  /** Case does not matter: two single-record files whose sequences agree
      up to case load the same sequence, and an uppercased file loads as
      the original. */
  lemma LoadFastaIgnoresCase(a: string, b: string)
    requires |a| == |b| && forall i :: 0 <= i < |a| ==> UpperChar(a[i]) == UpperChar(b[i])
    ensures LoadFasta([a]) == LoadFasta([b])
    ensures LoadFasta([Upper(a)]) == LoadFasta([a])
  {
    UpperIdempotent(a);
    assert Upper(a) == Upper(b);
  }

  /** Where the sequences first differ: `Some(i + 1)` for the smallest
      index `i` below both lengths with differing characters, `None` when
      the shorter is a prefix of the longer. */
  method FirstMismatch(a: string, b: string) returns (m: Option<nat>)
    ensures m.Some? ==>
      1 <= m.value <= |a| && m.value <= |b| && a[m.value - 1] != b[m.value - 1] &&
      forall k :: 0 <= k < m.value - 1 ==> a[k] == b[k]
    ensures m.None? <==> forall k :: 0 <= k < |a| && k < |b| ==> a[k] == b[k]
  {
    var n := if |a| < |b| then |a| else |b|;
    var i := 0;
    while i < n
      invariant 0 <= i <= n
      invariant forall k :: 0 <= k < i ==> a[k] == b[k]
    {
      if a[i] != b[i] {
        return Some(i + 1);
      }
      i := i + 1;
    }
    return None;
  }

  /** The first mismatch as reported: its 1-based position and the two
      characters there. */
  datatype Mismatch = Mismatch(position: nat, rust: char, wdl: char)

  /** The findings of `compare_consensus`. */
  datatype ConsensusReport =
    | Identical
    | Differ(first: Option<Mismatch>, lengths: Option<(nat, nat)>)

  /** One sequence is the start of the other. */
  predicate PrefixEither(a: string, b: string) {
    (|a| <= |b| && a == b[..|a|]) || (|b| <= |a| && b == a[..|b|])
  }

  /** The comparison in `compare_consensus` of two loaded sequences. */
  method CompareConsensus(rustSeq: string, wdlSeq: string) returns (report: ConsensusReport)
    ensures report.Identical? <==> rustSeq == wdlSeq
    ensures report.Differ? ==>
      (report.lengths.Some? <==> |rustSeq| != |wdlSeq|) &&
      (report.lengths.Some? ==> report.lengths.value == (|rustSeq|, |wdlSeq|)) &&
      (report.first.None? <==> PrefixEither(rustSeq, wdlSeq)) &&
      (report.first.Some? || report.lengths.Some?)
    ensures report.Differ? && report.first.Some? ==>
      var p := report.first.value.position;
      1 <= p <= |rustSeq| && p <= |wdlSeq| &&
      report.first.value.rust == rustSeq[p - 1] && report.first.value.wdl == wdlSeq[p - 1] &&
      rustSeq[p - 1] != wdlSeq[p - 1] && forall k :: 0 <= k < p - 1 ==> rustSeq[k] == wdlSeq[k]
  {
    if rustSeq == wdlSeq {
      return Identical;
    }
    var m := FirstMismatch(rustSeq, wdlSeq);
    var first: Option<Mismatch> := None;
    if m.Some? {
      first := Some(Mismatch(m.value, rustSeq[m.value - 1], wdlSeq[m.value - 1]));
    }
    var lengths: Option<(nat, nat)> := None;
    if |rustSeq| != |wdlSeq| {
      lengths := Some((|rustSeq|, |wdlSeq|));
    }
    assert m.None? <==> PrefixEither(rustSeq, wdlSeq) by {
      if m.None? {
        if |rustSeq| <= |wdlSeq| {
          assert rustSeq == wdlSeq[..|rustSeq|];
        } else {
          assert wdlSeq == rustSeq[..|wdlSeq|];
        }
      }
      if PrefixEither(rustSeq, wdlSeq) {
        if |rustSeq| <= |wdlSeq| && rustSeq == wdlSeq[..|rustSeq|] {
          assert forall k :: 0 <= k < |rustSeq| ==> rustSeq[k] == wdlSeq[..|rustSeq|][k];
        } else {
          assert forall k :: 0 <= k < |wdlSeq| ==> wdlSeq[k] == rustSeq[..|wdlSeq|][k];
        }
      }
    }
    return Differ(first, lengths);
  }

  // ---------------------------------------------------------------------
  // Statistics dictionaries
  // ---------------------------------------------------------------------

  /** A JSON value as `json.load` delivers it (floating-point numbers are
      not modelled). */
  datatype Json =
    | JNull
    | JBool(b: bool)
    | JInt(i: int)
    | JStr(s: string)
    | JList(items: seq<Json>)
    | JObject(fields: map<string, Json>)

  type Stats = map<string, Json>

  /** The number a boolean or an integer stands for in arithmetic and in
      comparisons. */
  function NumberOf(v: Json): Option<int> {
    match v
    case JBool(b) => Some(if b then 1 else 0)
    case JInt(i) => Some(i)
    case _ => None
  }

  /** Python's `==` on JSON values: `True == 1` and `False == 0`, lists
      element by element, objects key by key. */
  predicate PyEq(a: Json, b: Json) {
    if NumberOf(a).Some? && NumberOf(b).Some? then NumberOf(a) == NumberOf(b)
    else match (a, b)
      case (JList(x), JList(y)) => |x| == |y| && forall i :: 0 <= i < |x| ==> PyEq(x[i], y[i])
      case (JObject(x), JObject(y)) => x.Keys == y.Keys && forall k :: k in x ==> PyEq(x[k], y[k])
      case _ => a == b
  }

  /** The WDL quantile keys and the names they are renamed to, in the
      mapping's order. */
  const QuantileKeys: seq<(string, string)> :=
    [("depth_q.25", "depth_q25"), ("depth_q.5", "depth_q50"), ("depth_q.75", "depth_q75")]

  /** `stats[new] = stats.pop(old)` when `old` is present: the value moves
      to `new`, replacing whatever `new` held. */
  function Rename(m: Stats, oldKey: string, newKey: string): Stats {
    if oldKey in m then (m - {oldKey})[newKey := m[oldKey]] else m
  }

  /** The renamings `pairs` applied in order. */
  function RenameAll(m: Stats, pairs: seq<(string, string)>): Stats {
    if pairs == [] then m
    else
      var last := pairs[|pairs| - 1];
      Rename(RenameAll(m, pairs[..|pairs| - 1]), last.0, last.1)
  }

  /** `load_stats(file_path, is_wdl)` on a file that parses to `parsed`. */
  method LoadStats(parsed: Stats, isWdl: bool) returns (stats: Stats)
    ensures stats == if isWdl then RenameAll(parsed, QuantileKeys) else parsed
  {
    stats := parsed;
    if isWdl {
      for i := 0 to |QuantileKeys|
        invariant stats == RenameAll(parsed, QuantileKeys[..i])
      {
        var (oldKey, newKey) := QuantileKeys[i];
        assert QuantileKeys[..i + 1][..i] == QuantileKeys[..i];
        if oldKey in stats {
          var v := stats[oldKey];
          stats := stats - {oldKey};
          stats := stats[newKey := v];
        }
      }
      assert QuantileKeys[..|QuantileKeys|] == QuantileKeys;
    }
  }

  /** A key that no renaming names. */
  predicate Untouched(k: string, pairs: seq<(string, string)>) {
    forall i :: 0 <= i < |pairs| ==> k != pairs[i].0 && k != pairs[i].1
  }

  /** Renamings whose names are all distinct. */
  predicate DistinctNames(pairs: seq<(string, string)>) {
    (forall i :: 0 <= i < |pairs| ==> pairs[i].0 != pairs[i].1) &&
    (forall i, j :: 0 <= i < j < |pairs| ==>
      pairs[i].0 != pairs[j].0 && pairs[i].0 != pairs[j].1 &&
      pairs[i].1 != pairs[j].0 && pairs[i].1 != pairs[j].1)
  }

  /** Renaming `o` to `n` as seen from the old map `m`: `o` is gone, `n`
      holds the value of `o` if there was one and its own otherwise. */
  predicate Moved(r: Stats, m: Stats, o: string, n: string) {
    o !in r && (n in r <==> o in m || n in m) &&
    (n in r ==> r[n] == if o in m then m[o] else m[n])
  }

  /** `r` agrees with `m` on `k`. */
  predicate Kept(r: Stats, m: Stats, k: string) {
    (k in r <==> k in m) && (k in r ==> r[k] == m[k])
  }

  lemma RenameEffect(m: Stats, o: string, n: string)
    requires o != n
    ensures Moved(Rename(m, o, n), m, o, n)
    ensures forall k :: k != o && k != n ==> Kept(Rename(m, o, n), m, k)
  {
  }

  /** With distinct names, the renamings do not interfere: each old name
      is gone, each new name holds the old name's value if there was one
      and its own value otherwise, and every other key is untouched. */
  lemma {:induction false} RenameAllEffect(m: Stats, pairs: seq<(string, string)>)
    requires DistinctNames(pairs)
    ensures forall i :: 0 <= i < |pairs| ==> Moved(RenameAll(m, pairs), m, pairs[i].0, pairs[i].1)
    ensures forall k :: Untouched(k, pairs) ==> Kept(RenameAll(m, pairs), m, k)
  {
    if pairs != [] {
      var init := pairs[..|pairs| - 1];
      var (o, n) := pairs[|pairs| - 1];
      assert forall i :: 0 <= i < |init| ==> init[i] == pairs[i];
      RenameAllEffect(m, init);
      var r0 := RenameAll(m, init);
      var r := RenameAll(m, pairs);
      assert r == Rename(r0, o, n);
      RenameEffect(r0, o, n);
      assert Kept(r0, m, o) && Kept(r0, m, n) by {
        assert Untouched(o, init) && Untouched(n, init);
      }
      forall i | 0 <= i < |pairs|
        ensures Moved(r, m, pairs[i].0, pairs[i].1)
      {
        if i < |init| {
          assert Moved(r0, m, pairs[i].0, pairs[i].1);
          assert Kept(r, r0, pairs[i].0) && Kept(r, r0, pairs[i].1);
        }
      }
      forall k | Untouched(k, pairs)
        ensures Kept(r, m, k)
      {
        assert Untouched(k, init);
        assert k != pairs[|pairs| - 1].0 && k != pairs[|pairs| - 1].1;
        assert Kept(r0, m, k) && Kept(r, r0, k);
      }
    }
  }

  /** `load_stats(..., is_wdl=True)` renames each dotted quantile key that
      is present, overwriting the target, and leaves every other key as it
      was; without `is_wdl` nothing changes. */
  lemma QuantilesRenamed(m: Stats)
    ensures var r := RenameAll(m, QuantileKeys);
      (forall i :: 0 <= i < |QuantileKeys| ==>
        var (o, n) := QuantileKeys[i];
        o !in r && (n in r <==> o in m || n in m) &&
        (n in r ==> r[n] == if o in m then m[o] else m[n])) &&
      (forall k :: Untouched(k, QuantileKeys) ==> (k in r <==> k in m) && (k in r ==> r[k] == m[k]))
  {
    assert DistinctNames(QuantileKeys);
    RenameAllEffect(m, QuantileKeys);
  }

  // ---------------------------------------------------------------------
  // The depth file
  // ---------------------------------------------------------------------

  /** The `ValueError` for a line `int()` refuses, naming the stripped
      line. */
  datatype DepthError = InvalidDepth(line: string)

  /** Each line with its surrounding whitespace stripped. */
  function StripLines(lines: seq<string>): seq<string> {
    seq(|lines|, i requires 0 <= i < |lines| => StripSpace(lines[i]))
  }

  /** `ds` put in front of the depths of a successful read. */
  function Extend(ds: seq<int>, r: Result<seq<int>, DepthError>): Result<seq<int>, DepthError> {
    match r
    case Ok(t) => Ok(ds + t)
    case Err(e) => Err(e)
  }

  /** The depths read from stripped lines: blank ones are skipped, the
      others parsed in order until one fails. */
  function DepthsOf(stripped: seq<string>): Result<seq<int>, DepthError>
    decreases |stripped|
  {
    if stripped == [] then Ok([])
    else if stripped[0] == "" then DepthsOf(stripped[1..])
    else
      match ParseInt(stripped[0])
      case None => Err(InvalidDepth(stripped[0]))
      case Some(d) => Extend([d], DepthsOf(stripped[1..]))
  }

  /** `load_depth_file` on a file with the lines `lines`, each with its
      terminator. */
  function Depths(lines: seq<string>): Result<seq<int>, DepthError> {
    DepthsOf(StripLines(lines))
  }

  lemma ExtendExtend(a: seq<int>, b: seq<int>, r: Result<seq<int>, DepthError>)
    ensures Extend(a, Extend(b, r)) == Extend(a + b, r)
  {
    if r.Ok? {
      assert a + (b + r.value) == (a + b) + r.value;
    }
  }

  /** `load_depth_file(file_path)`: the loop over the lines. */
  method LoadDepthFile(lines: seq<string>) returns (r: Result<seq<int>, DepthError>)
    ensures r == Depths(lines)
  {
    var depths: seq<int> := [];
    ghost var stripped := StripLines(lines);
    assert Extend([], DepthsOf(stripped)) == DepthsOf(stripped) by {
      if DepthsOf(stripped).Ok? {
        assert [] + DepthsOf(stripped).value == DepthsOf(stripped).value;
      }
    }
    assert stripped[0..] == stripped;
    for i := 0 to |lines|
      invariant Depths(lines) == Extend(depths, DepthsOf(stripped[i..]))
    {
      var strippedLine := StripSpace(lines[i]);
      assert stripped[i..][0] == strippedLine && stripped[i..][1..] == stripped[i + 1..];
      if strippedLine != "" {
        var depth := ParseInt(strippedLine);
        if depth.None? {
          return Err(InvalidDepth(strippedLine));
        }
        ExtendExtend(depths, [depth.value], DepthsOf(stripped[i + 1..]));
        depths := depths + [depth.value];
      }
    }
    assert stripped[|lines|..] == [];
    assert depths + [] == depths;
    return Ok(depths);
  }

  /** A stripped line `int()` accepts: blank, or a valid integer. */
  predicate DepthLine(s: string) {
    s == "" || ParseInt(s).Some?
  }

  lemma {:induction false} DepthsOfOutcome(stripped: seq<string>)
    ensures DepthsOf(stripped).Ok? <==> forall i :: 0 <= i < |stripped| ==> DepthLine(stripped[i])
    ensures DepthsOf(stripped).Err? ==>
      exists i :: 0 <= i < |stripped| && !DepthLine(stripped[i]) &&
        DepthsOf(stripped).error == InvalidDepth(stripped[i]) &&
        forall j :: 0 <= j < i ==> DepthLine(stripped[j])
    decreases |stripped|
  {
    if stripped != [] {
      var t := stripped[1..];
      DepthsOfOutcome(t);
      assert forall i :: 0 < i < |stripped| ==> stripped[i] == t[i - 1];
      if DepthLine(stripped[0]) && DepthsOf(stripped).Err? {
        var i :| 0 <= i < |t| && !DepthLine(t[i]) && DepthsOf(t).error == InvalidDepth(t[i]) &&
          forall j :: 0 <= j < i ==> DepthLine(t[j]);
        assert !DepthLine(stripped[i + 1]) && DepthsOf(stripped).error == InvalidDepth(stripped[i + 1]);
        forall j | 0 <= j < i + 1
          ensures DepthLine(stripped[j])
        {
          if j > 0 {
            assert DepthLine(t[j - 1]);
          }
        }
      }
    }
  }

  /** The file is read exactly when every non-blank line holds an integer;
      otherwise the error names the first line that does not. */
  lemma DepthsOutcome(lines: seq<string>)
    ensures Depths(lines).Ok? <==> forall i :: 0 <= i < |lines| ==> DepthLine(StripSpace(lines[i]))
    ensures Depths(lines).Err? ==>
      exists i :: 0 <= i < |lines| && !DepthLine(StripSpace(lines[i])) &&
        Depths(lines).error == InvalidDepth(StripSpace(lines[i])) &&
        forall j :: 0 <= j < i ==> DepthLine(StripSpace(lines[j]))
  {
    var stripped := StripLines(lines);
    DepthsOfOutcome(stripped);
    assert forall i :: 0 <= i < |lines| ==> stripped[i] == StripSpace(lines[i]);
    if Depths(lines).Err? {
      var i :| 0 <= i < |stripped| && !DepthLine(stripped[i]) &&
        DepthsOf(stripped).error == InvalidDepth(stripped[i]) &&
        forall j :: 0 <= j < i ==> DepthLine(stripped[j]);
      assert !DepthLine(StripSpace(lines[i]));
    }
  }

  /** Blank stripped lines do not change what is read. */
  lemma {:induction false} DepthsOfSkipsBlank(x: seq<string>, y: seq<string>)
    ensures DepthsOf(x + [""] + y) == DepthsOf(x + y)
    decreases |x|
  {
    if x == [] {
      var z := x + [""] + y;
      assert z[0] == "" && z[1..] == y;
      assert x + y == y;
    } else {
      DepthsOfSkipsBlank(x[1..], y);
      assert (x + [""] + y)[1..] == x[1..] + [""] + y;
      assert (x + y)[1..] == x[1..] + y;
    }
  }

  /** A blank line anywhere in the file is ignored. */
  lemma BlankLineIgnored(a: seq<string>, b: string, c: seq<string>)
    requires forall i :: 0 <= i < |b| ==> b[i] in Whitespace
    ensures Depths(a + [b] + c) == Depths(a + c)
  {
    StripProperties(b, Whitespace);
    assert StripLines(a + [b] + c) == StripLines(a) + [""] + StripLines(c);
    assert StripLines(a + c) == StripLines(a) + StripLines(c);
    DepthsOfSkipsBlank(StripLines(a), StripLines(c));
  }

  /** A depth written out as a line, with its terminator. */
  function DepthLineText(d: int): string {
    IntToString(d) + "\n"
  }

  /** Neither end of a rendered integer is whitespace. */
  lemma IntToStringUnstripped(d: int)
    ensures IntToString(d) != [] && StripSpace(IntToString(d) + "\n") == IntToString(d)
  {
    var s := IntToString(d);
    var n: nat := if d < 0 then -d else d;
    var digits := Digits(n);
    assert forall c :: IsDigit(c) ==> c !in Whitespace;
    assert s[|s| - 1] == digits[|digits| - 1];
    assert s[0] == '-' || s[0] == digits[0];
    StripDropsLast(s, '\n', Whitespace);
  }

  lemma {:induction false} DepthsOfRendered(ds: seq<int>)
    ensures DepthsOf(seq(|ds|, i requires 0 <= i < |ds| => IntToString(ds[i]))) == Ok(ds)
  {
    var s := seq(|ds|, i requires 0 <= i < |ds| => IntToString(ds[i]));
    if ds != [] {
      DepthsOfRendered(ds[1..]);
      assert s[1..] == seq(|ds[1..]|, i requires 0 <= i < |ds[1..]| => IntToString(ds[1..][i]));
      IntToStringUnstripped(ds[0]);
      ParseIntToString(ds[0]);
      assert ds == [ds[0]] + ds[1..];
    }
  }

  /** Depths written one per line read back as the same depths, in order. */
  lemma DepthsRoundTrip(ds: seq<int>)
    ensures Depths(seq(|ds|, i requires 0 <= i < |ds| => DepthLineText(ds[i]))) == Ok(ds)
  {
    var lines := seq(|ds|, i requires 0 <= i < |ds| => DepthLineText(ds[i]));
    forall i | 0 <= i < |ds|
      ensures StripSpace(lines[i]) == IntToString(ds[i])
    {
      IntToStringUnstripped(ds[i]);
    }
    assert StripLines(lines) == seq(|ds|, i requires 0 <= i < |ds| => IntToString(ds[i]));
    DepthsOfRendered(ds);
  }

  // ---------------------------------------------------------------------
  // Adjusting and comparing the statistics
  // ---------------------------------------------------------------------

  /** The Rust alignment metrics that are doubled before the comparison. */
  const AlignmentFields: seq<string> := ["mapped_reads", "ercc_mapped_reads", "ercc_mapped_paired"]

  /** Why a statistics step raises: `*=` on an object is a `TypeError`,
      and allele counts that are not an object have no `keys`, an
      `AttributeError`. */
  datatype StatsError = TypeError(field: string) | AttributeError(field: string)

  /** Python's `v * 2`: `None` for the `TypeError` an object (or `None`)
      raises. */
  function Doubled(v: Json): Option<Json> {
    match v
    case JBool(b) => Some(JInt(if b then 2 else 0))
    case JInt(i) => Some(JInt(2 * i))
    case JStr(t) => Some(JStr(t + t))
    case JList(l) => Some(JList(l + l))
    case _ => None
  }

  /** One turn of the loop: a present, non-null field is replaced by its
      double. */
  function DoubleField(m: Stats, f: string): Result<Stats, StatsError> {
    if f in m && m[f] != JNull then
      match Doubled(m[f])
      case Some(v) => Ok(m[f := v])
      case None => Err(TypeError(f))
    else Ok(m)
  }

  /** The fields `fs` doubled in order, stopping at the first that raises. */
  function DoubleFields(m: Stats, fs: seq<string>): Result<Stats, StatsError>
    decreases |fs|
  {
    if fs == [] then Ok(m)
    else
      match DoubleField(m, fs[0])
      case Err(e) => Err(e)
      case Ok(m') => DoubleFields(m', fs[1..])
  }

  /** The doubling loop of `compare_stats` on the Rust statistics. */
  method DoubleAlignmentFields(stats: Stats) returns (r: Result<Stats, StatsError>)
    ensures r == DoubleFields(stats, AlignmentFields)
  {
    var current := stats;
    for i := 0 to |AlignmentFields|
      invariant DoubleFields(current, AlignmentFields[i..]) == DoubleFields(stats, AlignmentFields)
    {
      var field := AlignmentFields[i];
      assert AlignmentFields[i..][0] == field && AlignmentFields[i..][1..] == AlignmentFields[i + 1..];
      if field in current && current[field] != JNull {
        var doubled := Doubled(current[field]);
        if doubled.None? {
          return Err(TypeError(field));
        }
        current := current[field := doubled.value];
      }
    }
    assert AlignmentFields[|AlignmentFields|..] == [];
    return Ok(current);
  }

  /** A field the loop cannot double: present, not null, and an object. */
  predicate Undoublable(m: Stats, f: string) {
    f in m && m[f] != JNull && Doubled(m[f]).None?
  }

  /** With distinct fields, doubling fails exactly when some field cannot
      be doubled, naming the first such; otherwise it doubles each present,
      non-null field once and changes nothing else. */
  lemma {:induction false} DoubleFieldsEffect(m: Stats, fs: seq<string>)
    requires forall i, j :: 0 <= i < j < |fs| ==> fs[i] != fs[j]
    ensures DoubleFields(m, fs).Err? ==>
      exists i :: 0 <= i < |fs| && Undoublable(m, fs[i]) && DoubleFields(m, fs).error == TypeError(fs[i]) &&
        forall j :: 0 <= j < i ==> !Undoublable(m, fs[j])
    ensures DoubleFields(m, fs).Ok? <==> forall i :: 0 <= i < |fs| ==> !Undoublable(m, fs[i])
    ensures DoubleFields(m, fs).Ok? ==>
      var r := DoubleFields(m, fs).value;
      r.Keys == m.Keys &&
      forall k :: k in m ==> r[k] == if k in fs && m[k] != JNull then Doubled(m[k]).value else m[k]
    decreases |fs|
  {
    if fs != [] {
      var f := fs[0];
      var t := fs[1..];
      assert forall i :: 0 < i < |fs| ==> fs[i] == t[i - 1];
      if !Undoublable(m, f) {
        var m' := DoubleField(m, f).value;
        assert forall i :: 0 <= i < |t| ==> t[i] != f;
        DoubleFieldsEffect(m', t);
        assert forall i :: 0 <= i < |t| ==> (Undoublable(m', t[i]) <==> Undoublable(m, t[i]));
        if DoubleFields(m, fs).Err? {
          var i :| 0 <= i < |t| && Undoublable(m', t[i]) && DoubleFields(m', t).error == TypeError(t[i]) &&
            forall j :: 0 <= j < i ==> !Undoublable(m', t[j]);
          assert Undoublable(m, fs[i + 1]);
          forall j | 0 <= j < i + 1
            ensures !Undoublable(m, fs[j])
          {
            if j > 0 {
              assert !Undoublable(m', t[j - 1]);
            }
          }
        }
        if DoubleFields(m, fs).Ok? {
          var r := DoubleFields(m, fs).value;
          forall k | k in m
            ensures r[k] == if k in fs && m[k] != JNull then Doubled(m[k]).value else m[k]
          {
            assert k in fs <==> k == f || k in t;
          }
        }
      }
    }
  }

  /** The Rust alignment metrics that are present and not null are doubled
      (a count `n` becomes `2 * n`), every other entry is kept, and an
      object among them raises a `TypeError`. */
  lemma AlignmentFieldsDoubled(m: Stats)
    ensures DoubleFields(m, AlignmentFields).Ok? <==>
      forall i :: 0 <= i < |AlignmentFields| ==> !Undoublable(m, AlignmentFields[i])
    ensures DoubleFields(m, AlignmentFields).Ok? ==>
      var r := DoubleFields(m, AlignmentFields).value;
      r.Keys == m.Keys &&
      forall k :: k in m ==> r[k] == if k in AlignmentFields && m[k] != JNull then Doubled(m[k]).value else m[k]
    ensures forall n: int :: Doubled(JInt(n)) == Some(JInt(2 * n))
  {
    DoubleFieldsEffect(m, AlignmentFields);
  }

  /** `stats.get('allele_counts', {})` used as a dictionary: absent gives
      no entries, an object its entries, anything else the
      `AttributeError` of `.keys()`. */
  function AlleleCounts(stats: Stats): (r: Result<map<string, Json>, StatsError>)
    ensures r.Ok? <==> "allele_counts" !in stats || stats["allele_counts"].JObject?
    ensures "allele_counts" !in stats ==> r == Ok(map[])
    ensures "allele_counts" in stats && stats["allele_counts"].JObject? ==> r == Ok(stats["allele_counts"].fields)
    ensures r.Err? ==> r.error == AttributeError("allele_counts")
  {
    if "allele_counts" !in stats then Ok(map[])
    else
      match stats["allele_counts"]
      case JObject(m) => Ok(m)
      case _ => Err(AttributeError("allele_counts"))
  }

  /** `counts.get(key, 0)` */
  function CountOf(counts: map<string, Json>, k: string): Json {
    if k in counts then counts[k] else JInt(0)
  }

  /** The keys among `ks` whose two counts differ. */
  function Mismatched(rust: map<string, Json>, wdl: map<string, Json>, ks: set<string>): set<string> {
    set k | k in ks && !PyEq(CountOf(rust, k), CountOf(wdl, k))
  }

  lemma MismatchedAdd(rust: map<string, Json>, wdl: map<string, Json>, done: set<string>, key: string)
    ensures Mismatched(rust, wdl, done + {key}) ==
      Mismatched(rust, wdl, done) + (if PyEq(CountOf(rust, key), CountOf(wdl, key)) then {} else {key})
  {
  }

  /** One reported allele-count difference. */
  datatype AlleleMismatch = AlleleMismatch(key: string, rust: Json, wdl: Json)

  function KeysOf(ms: seq<AlleleMismatch>): set<string> {
    set i | 0 <= i < |ms| :: ms[i].key
  }

  /** Each key is reported at most once, with its two counts. */
  predicate WellReported(ms: seq<AlleleMismatch>, rust: map<string, Json>, wdl: map<string, Json>) {
    (forall i, j :: 0 <= i < j < |ms| ==> ms[i].key != ms[j].key) &&
    (forall i :: 0 <= i < |ms| ==> ms[i].rust == CountOf(rust, ms[i].key) && ms[i].wdl == CountOf(wdl, ms[i].key))
  }

  /** Reporting a new key keeps the report well formed and adds the key. */
  lemma ReportSnoc(ms: seq<AlleleMismatch>, rust: map<string, Json>, wdl: map<string, Json>, key: string)
    requires WellReported(ms, rust, wdl) && key !in KeysOf(ms)
    ensures var t := ms + [AlleleMismatch(key, CountOf(rust, key), CountOf(wdl, key))];
      WellReported(t, rust, wdl) && KeysOf(t) == KeysOf(ms) + {key}
  {
    var x := AlleleMismatch(key, CountOf(rust, key), CountOf(wdl, key));
    var t := ms + [x];
    assert t[|ms|] == x;
    assert forall i :: 0 <= i < |ms| ==> t[i] == ms[i] && ms[i].key in KeysOf(ms);
    forall k | k in KeysOf(t)
      ensures k in KeysOf(ms) + {key}
    {
      var i :| 0 <= i < |t| && t[i].key == k;
    }
    forall k | k in KeysOf(ms)
      ensures k in KeysOf(t)
    {
      var i :| 0 <= i < |ms| && ms[i].key == k;
      assert t[i].key == k;
    }
  }

  /** The allele-count comparison of `compare_stats`: every key of either
      side whose counts differ, a missing count being 0, reported once
      with both counts. */
  method AlleleMismatches(rust: map<string, Json>, wdl: map<string, Json>) returns (ms: seq<AlleleMismatch>)
    ensures KeysOf(ms) == Mismatched(rust, wdl, rust.Keys + wdl.Keys)
    ensures forall i, j :: 0 <= i < j < |ms| ==> ms[i].key != ms[j].key
    ensures forall i :: 0 <= i < |ms| ==> ms[i].rust == CountOf(rust, ms[i].key) && ms[i].wdl == CountOf(wdl, ms[i].key)
  {
    var keys := rust.Keys + wdl.Keys;
    var remaining := keys;
    ms := [];
    while remaining != {}
      invariant remaining <= keys
      invariant Progress(ms, rust, wdl, keys - remaining, remaining)
      decreases |remaining|
    {
      var key :| key in remaining;
      var rustCount := CountOf(rust, key);
      var wdlCount := CountOf(wdl, key);
      assert keys - (remaining - {key}) == (keys - remaining) + {key};
      ghost var done := keys - remaining;
      if !PyEq(rustCount, wdlCount) {
        ProgressMismatch(ms, rust, wdl, done, remaining, key);
        ms := ms + [AlleleMismatch(key, rustCount, wdlCount)];
      } else {
        ProgressMatch(ms, rust, wdl, done, remaining, key);
      }
      remaining := remaining - {key};
    }
  }

  /** The allele-count comparison of two stats files: the rust counts
      are read first, so their error is the one reported when both are
      malformed; otherwise every key of either table whose counts differ
      is reported once, with both counts. */
  method CompareAlleleCounts(rustStats: Stats, wdlStats: Stats) returns (r: Result<seq<AlleleMismatch>, StatsError>)
    ensures AlleleCounts(rustStats).Err? ==> r == Err(AlleleCounts(rustStats).error)
    ensures AlleleCounts(rustStats).Ok? && AlleleCounts(wdlStats).Err? ==> r == Err(AlleleCounts(wdlStats).error)
    ensures r.Ok? <==> AlleleCounts(rustStats).Ok? && AlleleCounts(wdlStats).Ok?
    ensures r.Ok? ==>
      var rust, wdl := AlleleCounts(rustStats).value, AlleleCounts(wdlStats).value;
      KeysOf(r.value) == Mismatched(rust, wdl, rust.Keys + wdl.Keys) &&
      (forall i, j :: 0 <= i < j < |r.value| ==> r.value[i].key != r.value[j].key) &&
      (forall i :: 0 <= i < |r.value| ==>
        r.value[i].rust == CountOf(rust, r.value[i].key) && r.value[i].wdl == CountOf(wdl, r.value[i].key))
  {
    var rust := AlleleCounts(rustStats);
    if rust.Err? {
      return Err(rust.error);
    }
    var wdl := AlleleCounts(wdlStats);
    if wdl.Err? {
      return Err(wdl.error);
    }
    var ms := AlleleMismatches(rust.value, wdl.value);
    r := Ok(ms);
  }

  /** The loop's invariant: the keys done so far have been reported if
      they differ, and the keys still to do have not been. */
  predicate Progress(ms: seq<AlleleMismatch>, rust: map<string, Json>, wdl: map<string, Json>,
                     done: set<string>, remaining: set<string>) {
    KeysOf(ms) == Mismatched(rust, wdl, done) && KeysOf(ms) !! remaining && WellReported(ms, rust, wdl)
  }

  lemma ProgressMismatch(ms: seq<AlleleMismatch>, rust: map<string, Json>, wdl: map<string, Json>,
                         done: set<string>, remaining: set<string>, key: string)
    requires Progress(ms, rust, wdl, done, remaining) && key in remaining
    requires !PyEq(CountOf(rust, key), CountOf(wdl, key))
    ensures Progress(ms + [AlleleMismatch(key, CountOf(rust, key), CountOf(wdl, key))], rust, wdl,
                     done + {key}, remaining - {key})
  {
    ReportSnoc(ms, rust, wdl, key);
    MismatchedAdd(rust, wdl, done, key);
  }

  lemma ProgressMatch(ms: seq<AlleleMismatch>, rust: map<string, Json>, wdl: map<string, Json>,
                      done: set<string>, remaining: set<string>, key: string)
    requires Progress(ms, rust, wdl, done, remaining) && key in remaining
    requires PyEq(CountOf(rust, key), CountOf(wdl, key))
    ensures Progress(ms, rust, wdl, done + {key}, remaining - {key})
  {
    MismatchedAdd(rust, wdl, done, key);
  }

  /** No allele-count mismatch is reported exactly when the two sides agree
      on every key, a missing count being 0; so a count of 0 on one side
      and no entry on the other is not a mismatch. */
  lemma NoAlleleMismatchIffAgree(rust: map<string, Json>, wdl: map<string, Json>)
    ensures Mismatched(rust, wdl, rust.Keys + wdl.Keys) == {} <==>
      forall k :: PyEq(CountOf(rust, k), CountOf(wdl, k))
    ensures forall k :: k in rust && rust[k] == JInt(0) && k !in wdl ==>
      k !in Mismatched(rust, wdl, rust.Keys + wdl.Keys)
  {
    if Mismatched(rust, wdl, rust.Keys + wdl.Keys) == {} {
      forall k
        ensures PyEq(CountOf(rust, k), CountOf(wdl, k))
      {
        if k !in rust.Keys + wdl.Keys {
          assert CountOf(rust, k) == JInt(0) && CountOf(wdl, k) == JInt(0);
        } else {
          assert k !in Mismatched(rust, wdl, rust.Keys + wdl.Keys);
        }
      }
    }
  }
}
