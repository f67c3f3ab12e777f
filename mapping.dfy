/**
 * The stat-key mapping table and the single-record normalisation
 * (src/mapping.rs): a record of statistics keyed by opaque codes is replaced
 * by the entries whose code the table knows, re-keyed to the code's label.
 */
module Mapping {
  import Sets

  /** The raw configuration payload: each code carries an English label. */
  datatype Label = Label(en: string)
  datatype MappingEntry = MappingEntry(entryLabel: Label)  // the source field `label`
  datatype Response = Response(id: string, mapping: map<string, MappingEntry>)

  /** The code-to-label table. */
  datatype Mapping = Mapping(table: map<string, string>)

  /** `Into<Mapping> for Response`: every code of the payload, labelled with its `label.en`. */
  function FromResponse(resp: Response): (m: Mapping)
    ensures m.table.Keys == resp.mapping.Keys
    ensures forall code :: code in m.table ==> m.table[code] == resp.mapping[code].entryLabel.en
  {
    Mapping(map code | code in resp.mapping :: resp.mapping[code].entryLabel.en)
  }

  /** The labels the table gives to those of `codes` it knows. */
  ghost function LabelsOf(codes: set<string>, mapping: Mapping): set<string> {
    Sets.Image(codes * mapping.table.Keys, mapping.table)
  }

  /**
   * `after` is what `map_stats` may leave in place of `before`: its keys are
   * exactly the labels of the known codes, and each value is the value of
   * some entry whose code carries that label. Which of several such entries
   * wins depends on the hash map's iteration order, which is unspecified.
   */
  ghost predicate IsNormalization(before: map<string, string>, mapping: Mapping, after: map<string, string>) {
    && after.Keys == LabelsOf(before.Keys, mapping)
    && forall lbl :: lbl in after ==>
         exists code :: code in before && code in mapping.table && mapping.table[code] == lbl && before[code] == after[lbl]
  }

  /**
   * The `into_iter().filter_map(..).collect()` pipeline of `map_stats`. The
   * entries are visited in an arbitrary order; an entry whose label is
   * already present overwrites it.
   */
  method Normalize(stats: map<string, string>, mapping: Mapping) returns (result: map<string, string>)
    ensures IsNormalization(stats, mapping, result)
  {
    result := map[];
    var rest := stats.Keys;
    ghost var done: set<string> := {};
    while rest != {}
      invariant rest <= stats.Keys && done == stats.Keys - rest
      invariant result.Keys == LabelsOf(done, mapping)
      invariant forall lbl :: lbl in result ==>
        exists code :: code in done && code in mapping.table && mapping.table[code] == lbl && stats[code] == result[lbl]
      decreases rest
    {
      var code :| code in rest;
      if code in mapping.table {
        result := result[mapping.table[code] := stats[code]];
      }
      rest := rest - {code};
      done := done + {code};
    }
  }

  /** A string-to-string record that `map_stats` replaces in place. */
  class StatRecord {
    var stats: map<string, string>

    constructor (stats: map<string, string>)
      ensures this.stats == stats
    {
      this.stats := stats;
    }

    /** `MapStats for HashMap<String, String>::map_stats`. */
    method MapStats(mapping: Mapping)
      modifies this
      ensures IsNormalization(old(stats), mapping, stats)
    {
      stats := Normalize(stats, mapping);
    }
  }

  /** Every surviving key is a label of the table. */
  lemma NormalizedKeysAreLabels(before: map<string, string>, mapping: Mapping, after: map<string, string>)
    requires IsNormalization(before, mapping, after)
    ensures after.Keys <= mapping.table.Values
  {
    forall lbl | lbl in after
      ensures lbl in mapping.table.Values
    {
      var code :| code in before && code in mapping.table && mapping.table[code] == lbl;
    }
  }

  /** The table labels a set of codes with at most as many labels, and with as many exactly when it knows them all and keeps them apart. */
  lemma LabelsOfSize(codes: set<string>, mapping: Mapping)
    ensures |LabelsOf(codes, mapping)| <= |codes|
    ensures |LabelsOf(codes, mapping)| == |codes| <==>
      codes <= mapping.table.Keys && Sets.InjectiveOn(codes, mapping.table)
  {
    var known := codes * mapping.table.Keys;
    var image := Sets.Image(known, mapping.table);
    Sets.ImageSize(known, mapping.table);
    Sets.ImageSizeExact(known, mapping.table);
    Sets.SubsetSize(known, codes);
    assert |image| <= |known| <= |codes|;
    if |image| == |codes| {
      assert known == codes;
    }
    if codes <= mapping.table.Keys {
      assert known == codes;
    }
  }

  /**
   * Normalising never adds entries, and keeps every entry exactly when all
   * codes are known and no two of them share a label.
   */
  lemma NormalizedSize(before: map<string, string>, mapping: Mapping, after: map<string, string>)
    requires IsNormalization(before, mapping, after)
    ensures |after| <= |before|
    ensures |after| == |before| <==>
      before.Keys <= mapping.table.Keys && Sets.InjectiveOn(before.Keys, mapping.table)
  {
    assert |after| == |after.Keys| && |before| == |before.Keys|;
    LabelsOfSize(before.Keys, mapping);
  }

  /**
   * When no two codes of the record share a label, the result is fully
   * determined: each known code's value sits under its label.
   */
  lemma NormalizedValues(before: map<string, string>, mapping: Mapping, after: map<string, string>)
    requires IsNormalization(before, mapping, after)
    requires forall c, d :: c in before && d in before && c in mapping.table && d in mapping.table && mapping.table[c] == mapping.table[d] ==> c == d
    ensures forall code :: code in before && code in mapping.table ==> mapping.table[code] in after && after[mapping.table[code]] == before[code]
  {
    forall code | code in before && code in mapping.table
      ensures mapping.table[code] in after && after[mapping.table[code]] == before[code]
    {
      var lbl := mapping.table[code];
      assert lbl in LabelsOf(before.Keys, mapping);
      var c :| c in before && c in mapping.table && mapping.table[c] == lbl && before[c] == after[lbl];
    }
  }

  /** An empty table or an empty record normalises to the empty record. */
  lemma NormalizedEmpty(before: map<string, string>, mapping: Mapping, after: map<string, string>)
    requires IsNormalization(before, mapping, after)
    requires before == map[] || mapping.table == map[]
    ensures after == map[]
  {
    assert LabelsOf(before.Keys, mapping) == {};
  }

  /**
   * Normalisation is not idempotent: when no label is also a code, normalising
   * an already normalised record with the same table drops every entry.
   */
  lemma NormalizeTwiceDropsAll(raw: map<string, string>, mapping: Mapping, once: map<string, string>, twice: map<string, string>)
    requires mapping.table.Keys !! mapping.table.Values
    requires IsNormalization(raw, mapping, once)
    requires IsNormalization(once, mapping, twice)
    ensures twice == map[]
  {
    NormalizedKeysAreLabels(raw, mapping, once);
    assert once.Keys * mapping.table.Keys == {};
    assert LabelsOf(once.Keys, mapping) == {};
  }

  /** Unknown codes are dropped and known ones renamed: {"a":"1","b":"2"} with {"a":"X"} gives {"X":"1"}. */
  lemma NormalizeExample(after: map<string, string>)
    requires IsNormalization(map["a" := "1", "b" := "2"], Mapping(map["a" := "X"]), after)
    ensures after == map["X" := "1"]
  {
    var before := map["a" := "1", "b" := "2"];
    var mapping := Mapping(map["a" := "X"]);
    assert "b" !in mapping.table;
    assert "a" in before && "a" in mapping.table && mapping.table["a"] == "X";
    assert LabelsOf(before.Keys, mapping) == {"X"};
    NormalizedValues(before, mapping, after);
  }
}
