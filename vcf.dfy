/**
 * The sample side of `MultiSampleVCF`: the variant identity string and its parse, the genotype
 * rule, the sample map of one variant, the variant lookup by id over a list of candidates, and
 * the per-sample de-duplication in `fetch_samples_with_variants`.
 */
module MultiSample {
  import opened Wrappers
  import opened PyText
  import opened Genomics

  // ---------------------------------------------------------------- identity

  /** `variant_to_id`: `"CHROM:POS:REF:['ALT0']"`. */
  function VariantToId(v: Variant): string {
    v.chrom + ":" + IntToStr(v.pos) + ":" + v.ref + ":" + AltField(v.alt)
  }

  /** The fields of a variant an id carries. */
  function IdFields(v: Variant): (string, int, string, string) {
    (v.chrom, v.pos, v.ref, v.alt)
  }

  /**
   * The parse at the head of `get_variant_by_id`: four `:`-separated fields (else the tuple
   * unpacking raises `ValueError`), the position through `int` (else `ValueError`), and the
   * second `'`-separated piece of the last field (else `IndexError`).
   */
  function ParseVariantId(id: string): (r: Result<(string, int, string, string)>)
    ensures r.Err? <==>
              |Split(id, ':')| != 4 || ParseInt(Split(id, ':')[1]).Err? || |Split(Split(id, ':')[3], '\'')| < 2
    ensures r.Err? && |Split(id, ':')| != 4 ==> r.error.ValueError?
    ensures |Split(id, ':')| == 4 && ParseInt(Split(id, ':')[1]).Err? ==> r.Err? && r.error.ValueError?
    ensures |Split(id, ':')| == 4 && ParseInt(Split(id, ':')[1]).Ok? && |Split(Split(id, ':')[3], '\'')| < 2 ==>
              r.Err? && r.error.IndexError?
    ensures r.Ok? ==> ParseInt(Split(id, ':')[1]) == Ok(r.value.1)
    ensures r.Ok? ==> ':' !in r.value.0 && ':' !in r.value.2 && ':' !in r.value.3 && '\'' !in r.value.3
  {
    var parts := Split(id, ':');
    if |parts| != 4 then Err(ValueError("wrong number of values to unpack"))
    else
      match ParseInt(parts[1])
      case Err(e) => Err(e)
      case Ok(pos) =>
        var pieces := Split(parts[3], '\'');
        if |pieces| < 2 then Err(IndexError("list index out of range"))
        else Ok((parts[0], pos, parts[2], pieces[1]))
  }

  /** The fields never contain a separator the id format uses. */
  predicate PlainFields(v: Variant) {
    ':' !in v.chrom && ':' !in v.ref && ':' !in v.alt && '\'' !in v.alt
  }

  /** The last field of an id: the first ALT inside `['` and `']`. */
  function AltField(alt: string): string { "['" + alt + "']" }

  lemma AltFieldSplit(alt: string)
    requires ':' !in alt && '\'' !in alt
    ensures ':' !in AltField(alt)
    ensures Split(AltField(alt), '\'') == ["[", alt, "]"]
  {
    var last := AltField(alt);
    forall k | 0 <= k < |last| ensures last[k] != ':' {
      if 2 <= k < 2 + |alt| { assert last[k] == alt[k - 2]; }
    }
    assert last == "[" + ['\''] + (alt + ['\''] + "]");
    SplitFirst("[", '\'', alt + ['\''] + "]");
    SplitFirst(alt, '\'', "]");
    SplitNoSep("]", '\'');
  }

  lemma SplitFour(a: string, b: string, c: string, d: string, sep: char)
    requires sep !in a && sep !in b && sep !in c && sep !in d
    ensures Split(a + [sep] + (b + [sep] + (c + [sep] + d)), sep) == [a, b, c, d]
  {
    SplitNoSep(d, sep);
    SplitFirst(c, sep, d);
    SplitFirst(b, sep, c + [sep] + d);
    SplitFirst(a, sep, b + [sep] + (c + [sep] + d));
  }

  lemma IdFieldsSplit(v: Variant)
    requires PlainFields(v)
    ensures Split(VariantToId(v), ':') == [v.chrom, IntToStr(v.pos), v.ref, AltField(v.alt)]
  {
    var pos, last := IntToStr(v.pos), AltField(v.alt);
    AltFieldSplit(v.alt);
    assert VariantToId(v) == v.chrom + [':'] + (pos + [':'] + (v.ref + [':'] + last));
    SplitFour(v.chrom, pos, v.ref, last, ':');
  }

  /** The id of a variant with plain fields parses back to those fields. */
  lemma IdRoundTrip(v: Variant)
    requires PlainFields(v)
    ensures ParseVariantId(VariantToId(v)) == Ok(IdFields(v))
  {
    IdFieldsSplit(v);
    AltFieldSplit(v.alt);
    IntToStrRoundTrip(v.pos);
  }

  /** Two variants with plain fields share an id exactly when they agree on the fields it carries. */
  lemma IdInjective(v: Variant, w: Variant)
    requires PlainFields(v) && PlainFields(w)
    ensures VariantToId(v) == VariantToId(w) <==> IdFields(v) == IdFields(w)
  {
    if VariantToId(v) == VariantToId(w) {
      IdRoundTrip(v);
      IdRoundTrip(w);
    }
  }

  /** Without plain fields two different variants can share an id. */
  lemma IdCollision()
    ensures var v, w := Variant("1:2", 3, "A", "C", []), Variant("1", 2, "3:A", "C", []);
            IdFields(v) != IdFields(w) && VariantToId(v) == VariantToId(w)
  {
    var v, w := Variant("1:2", 3, "A", "C", []), Variant("1", 2, "3:A", "C", []);
    assert IntToStr(3) == "3" && IntToStr(2) == "2";
    assert VariantToId(v) == "1:2:3:A:['C']";
    assert VariantToId(w) == "1:2:3:A:['C']";
  }

  /**
   * `get_variant_by_id` over the variants fetched at the id's position: the first one whose REF
   * and first ALT match, else `KeyError`; a malformed id fails in the parse.
   */
  method GetVariantById(candidates: seq<Variant>, id: string) returns (r: Result<Variant>)
    ensures ParseVariantId(id).Err? ==> r == Err(ParseVariantId(id).error)
    ensures ParseVariantId(id).Ok? ==>
              var (_, _, ref, alt) := ParseVariantId(id).value;
              && (r.Ok? ==> exists k :: 0 <= k < |candidates| && candidates[k] == r.value &&
                              r.value.ref == ref && r.value.alt == alt &&
                              forall j :: 0 <= j < k ==> !(candidates[j].ref == ref && candidates[j].alt == alt))
              && (r.Err? <==> forall k :: 0 <= k < |candidates| ==> !(candidates[k].ref == ref && candidates[k].alt == alt))
              && (r.Err? ==> r.error.KeyError?)
  {
    var parsed := ParseVariantId(id);
    if parsed.Err? {
      return Err(parsed.error);
    }
    var (_, _, ref, alt) := parsed.value;
    var i := 0;
    while i < |candidates|
      invariant 0 <= i <= |candidates|
      invariant forall j :: 0 <= j < i ==> !(candidates[j].ref == ref && candidates[j].alt == alt)
    {
      var v := candidates[i];
      if v.ref == ref && v.alt == alt {
        return Ok(v);
      }
      i := i + 1;
    }
    return Err(KeyError("Variant " + id + " not found in vcf file."));
  }

  // --------------------------------------------------------------- genotypes

  /** Genotype codes under cyvcf2's default encoding (`gts012=True` would swap 2 and 3). */
  const HomRef := 0
  const Het := 1
  const Unknown := 2
  const HomAlt := 3

  /** `_has_variant_gt`: neither homozygous reference nor unknown. */
  function HasVariantGt(gt: int): (r: bool)
    ensures HomRef <= gt <= HomAlt ==> (r <==> gt == Het || gt == HomAlt)
  {
    gt != HomRef && gt != Unknown
  }

  /** Python's `zip`: pairs up to the shorter length. */
  function Zip<A, B>(a: seq<A>, b: seq<B>): (r: seq<(A, B)>)
    ensures |r| == Min(|a|, |b|)
    ensures forall k :: 0 <= k < |r| ==> r[k] == (a[k], b[k])
  {
    seq(Min(|a|, |b|), k requires 0 <= k < Min(|a|, |b|) => (a[k], b[k]))
  }

  /** `dict(filter(...))` over sample/genotype pairs: a later pair overrides an earlier one. */
  function SampleMap(pairs: seq<(string, int)>): map<string, int> {
    if pairs == [] then map[]
    else
      var m := SampleMap(pairs[..|pairs| - 1]);
      var (s, gt) := pairs[|pairs| - 1];
      if HasVariantGt(gt) then m[s := gt] else m
  }

  /** `get_samples`: the samples carrying the variant, each with its genotype. */
  function GetSamples(samples: seq<string>, gts: seq<int>): map<string, int> {
    SampleMap(Zip(samples, gts))
  }

  /** The last carrying pair of a sample decides its genotype. */
  predicate LastCarrier(pairs: seq<(string, int)>, s: string, k: int) {
    0 <= k < |pairs| && pairs[k].0 == s && HasVariantGt(pairs[k].1) &&
    forall j :: k < j < |pairs| && pairs[j].0 == s ==> !HasVariantGt(pairs[j].1)
  }

  lemma {:induction false} SampleMapSpec(pairs: seq<(string, int)>)
    ensures forall s :: s in SampleMap(pairs) <==>
              exists k :: 0 <= k < |pairs| && pairs[k].0 == s && HasVariantGt(pairs[k].1)
    ensures forall s :: s in SampleMap(pairs) ==>
              exists k :: LastCarrier(pairs, s, k) && SampleMap(pairs)[s] == pairs[k].1
    decreases |pairs|
  {
    if pairs != [] {
      var init := pairs[..|pairs| - 1];
      SampleMapSpec(init);
      var n := |pairs| - 1;
      var m := SampleMap(init);
      assert SampleMap(pairs) == if HasVariantGt(pairs[n].1) then m[pairs[n].0 := pairs[n].1] else m;
      forall s | s in SampleMap(pairs)
        ensures exists k :: LastCarrier(pairs, s, k) && SampleMap(pairs)[s] == pairs[k].1
      {
        if pairs[n].0 == s && HasVariantGt(pairs[n].1) {
          assert LastCarrier(pairs, s, n);
        } else {
          assert s in m && SampleMap(pairs)[s] == m[s];
          var k :| LastCarrier(init, s, k) && m[s] == init[k].1;
          forall j | k < j < |pairs| && pairs[j].0 == s ensures !HasVariantGt(pairs[j].1) {
            if j < n { assert pairs[j] == init[j]; }
          }
          assert LastCarrier(pairs, s, k);
        }
      }
      forall s | exists k :: 0 <= k < |pairs| && pairs[k].0 == s && HasVariantGt(pairs[k].1)
        ensures s in SampleMap(pairs)
      {
        var k :| 0 <= k < |pairs| && pairs[k].0 == s && HasVariantGt(pairs[k].1);
        if k < n { assert init[k] == pairs[k]; }
      }
    }
  }

  /**
   * A sample is in `get_samples` exactly when one of its genotypes (within the shorter of the two
   * lists) is a carrying genotype, and its value is the last such genotype.
   */
  lemma GetSamplesSpec(samples: seq<string>, gts: seq<int>)
    ensures forall s :: s in GetSamples(samples, gts) <==>
              exists k :: 0 <= k < Min(|samples|, |gts|) && samples[k] == s && HasVariantGt(gts[k])
    ensures forall s :: s in GetSamples(samples, gts) ==>
              exists k :: 0 <= k < Min(|samples|, |gts|) && samples[k] == s && gts[k] == GetSamples(samples, gts)[s] &&
                (forall j :: k < j < Min(|samples|, |gts|) && samples[j] == s ==> !HasVariantGt(gts[j]))
    ensures forall s :: s in GetSamples(samples, gts) ==> HasVariantGt(GetSamples(samples, gts)[s])
  {
    var pairs := Zip(samples, gts);
    SampleMapSpec(pairs);
    forall s | s in GetSamples(samples, gts)
      ensures exists k :: 0 <= k < Min(|samples|, |gts|) && samples[k] == s && gts[k] == GetSamples(samples, gts)[s] &&
                (forall j :: k < j < Min(|samples|, |gts|) && samples[j] == s ==> !HasVariantGt(gts[j]))
    {
      var k :| LastCarrier(pairs, s, k) && SampleMap(pairs)[s] == pairs[k].1;
      forall j | k < j < Min(|samples|, |gts|) && samples[j] == s ensures !HasVariantGt(gts[j]) {
        assert pairs[j] == (samples[j], gts[j]);
      }
    }
    forall s | (exists k :: 0 <= k < Min(|samples|, |gts|) && samples[k] == s && HasVariantGt(gts[k]))
      ensures s in GetSamples(samples, gts)
    {
      var k :| 0 <= k < Min(|samples|, |gts|) && samples[k] == s && HasVariantGt(gts[k]);
      assert pairs[k] == (samples[k], gts[k]);
    }
  }

  // ----------------------------------------------------------- de-duplication

  /** The ids of the variants in a sample's list. */
  function IdsOf(calls: seq<(Variant, int)>): set<string> {
    set k | 0 <= k < |calls| :: VariantToId(calls[k].0)
  }

  /** The variants of all intervals, in order. */
  function Flatten(groups: seq<seq<Variant>>): seq<Variant> {
    if groups == [] then [] else Flatten(groups[..|groups| - 1]) + groups[|groups| - 1]
  }

  /**
   * The list `fetch_samples_with_variants` builds for sample `s` over the variants `vs`: each
   * variant carried by `s`, with its genotype, unless a variant with the same id came first.
   */
  function SampleCalls(vs: seq<Variant>, samples: seq<string>, s: string): seq<(Variant, int)> {
    if vs == [] then []
    else
      var prev := SampleCalls(vs[..|vs| - 1], samples, s);
      var v := vs[|vs| - 1];
      var gs := GetSamples(samples, v.gtTypes);
      if s in gs && VariantToId(v) !in IdsOf(prev) then prev + [(v, gs[s])] else prev
  }

  lemma IdsOfSnoc(calls: seq<(Variant, int)>, c: (Variant, int))
    ensures IdsOf(calls + [c]) == IdsOf(calls) + {VariantToId(c.0)}
  {
    var l := calls + [c];
    forall id | id in IdsOf(l) ensures id in IdsOf(calls) + {VariantToId(c.0)} {
      var k :| 0 <= k < |l| && VariantToId(l[k].0) == id;
      if k < |calls| { assert l[k] == calls[k]; }
    }
    forall id | id in IdsOf(calls) ensures id in IdsOf(l) {
      var k :| 0 <= k < |calls| && VariantToId(calls[k].0) == id;
      assert l[k] == calls[k];
    }
    assert l[|calls|] == c;
  }

  lemma SampleCallsSnoc(vs: seq<Variant>, v: Variant, samples: seq<string>, s: string)
    ensures var prev, gs := SampleCalls(vs, samples, s), GetSamples(samples, v.gtTypes);
            SampleCalls(vs + [v], samples, s) ==
              if s in gs && VariantToId(v) !in IdsOf(prev) then prev + [(v, gs[s])] else prev
  {
    assert (vs + [v])[..|vs|] == vs;
  }

  /** The sample carries the variant of `c`, with the genotype of `c`. */
  predicate Carried(c: (Variant, int), samples: seq<string>, s: string) {
    s in GetSamples(samples, c.0.gtTypes) && c.1 == GetSamples(samples, c.0.gtTypes)[s]
  }

  /** Every entry of a sample's list is a variant the sample carries, with its genotype. */
  lemma {:induction false} SampleCallsSound(vs: seq<Variant>, samples: seq<string>, s: string)
    ensures forall k :: 0 <= k < |SampleCalls(vs, samples, s)| ==>
              && SampleCalls(vs, samples, s)[k].0 in vs
              && Carried(SampleCalls(vs, samples, s)[k], samples, s)
              && HasVariantGt(SampleCalls(vs, samples, s)[k].1)
    decreases |vs|
  {
    if vs != [] {
      var init := vs[..|vs| - 1];
      SampleCallsSound(init, samples, s);
      var calls := SampleCalls(vs, samples, s);
      var prev := SampleCalls(init, samples, s);
      forall k | 0 <= k < |calls|
        ensures calls[k].0 in vs && Carried(calls[k], samples, s) && HasVariantGt(calls[k].1)
      {
        GetSamplesSpec(samples, calls[k].0.gtTypes);
        if k < |prev| {
          assert calls[k] == prev[k];
          var c := prev[k];
          assert c.0 in init;
          var idx :| 0 <= idx < |init| && init[idx] == c.0;
          assert vs[idx] == c.0;
        } else {
          assert calls[k].0 == vs[|vs| - 1];
        }
      }
    }
  }

  /** No id appears twice in a sample's list. */
  lemma {:induction false} SampleCallsDistinct(vs: seq<Variant>, samples: seq<string>, s: string)
    ensures forall j, k :: 0 <= j < k < |SampleCalls(vs, samples, s)| ==>
              VariantToId(SampleCalls(vs, samples, s)[j].0) != VariantToId(SampleCalls(vs, samples, s)[k].0)
    decreases |vs|
  {
    if vs != [] {
      var init := vs[..|vs| - 1];
      SampleCallsDistinct(init, samples, s);
      var prev := SampleCalls(init, samples, s);
      var calls := SampleCalls(vs, samples, s);
      forall j, k | 0 <= j < k < |calls| ensures VariantToId(calls[j].0) != VariantToId(calls[k].0) {
        assert calls[j] == prev[j];
        if k < |prev| {
          assert calls[k] == prev[k];
        } else {
          assert VariantToId(calls[k].0) !in IdsOf(prev);
          assert VariantToId(prev[j].0) in IdsOf(prev);
        }
      }
    }
  }

  /** Every variant the sample carries is represented in its list by its id. */
  lemma {:induction false} SampleCallsComplete(vs: seq<Variant>, samples: seq<string>, s: string)
    ensures forall k :: 0 <= k < |vs| && s in GetSamples(samples, vs[k].gtTypes) ==>
              VariantToId(vs[k]) in IdsOf(SampleCalls(vs, samples, s))
    decreases |vs|
  {
    if vs != [] {
      var init := vs[..|vs| - 1];
      var v := vs[|vs| - 1];
      SampleCallsComplete(init, samples, s);
      SampleCallsSnoc(init, v, samples, s);
      assert init + [v] == vs;
      var prev := SampleCalls(init, samples, s);
      var gs := GetSamples(samples, v.gtTypes);
      if s in gs && VariantToId(v) !in IdsOf(prev) {
        IdsOfSnoc(prev, (v, gs[s]));
      }
      assert IdsOf(prev) <= IdsOf(SampleCalls(vs, samples, s));
      forall k | 0 <= k < |vs| && s in GetSamples(samples, vs[k].gtTypes)
        ensures VariantToId(vs[k]) in IdsOf(SampleCalls(vs, samples, s))
      {
        if k < |init| {
          assert vs[k] == init[k];
        }
      }
    }
  }

  /** A defaultdict lookup: the missing key reads as the default. */
  function GetList(m: map<string, seq<(Variant, int)>>, s: string): seq<(Variant, int)> {
    if s in m then m[s] else []
  }

  function GetSet(m: map<string, set<string>>, s: string): set<string> {
    if s in m then m[s] else {}
  }

  /** The two dictionaries of `fetch_samples_with_variants` agree with `SampleCalls` at sample `s`. */
  predicate TracksAt(lists: map<string, seq<(Variant, int)>>, ids: map<string, set<string>>,
                     vs: seq<Variant>, samples: seq<string>, s: string)
  {
    && (s in lists <==> SampleCalls(vs, samples, s) != [])
    && GetList(lists, s) == SampleCalls(vs, samples, s)
    && GetSet(ids, s) == IdsOf(SampleCalls(vs, samples, s))
  }

  /** One step of the innermost loop keeps the dictionaries in step with `SampleCalls` at `s`. */
  lemma TrackStep(lists: map<string, seq<(Variant, int)>>, ids: map<string, set<string>>,
                  before: seq<Variant>, v: Variant, samples: seq<string>, s: string)
    requires s in GetSamples(samples, v.gtTypes)
    requires TracksAt(lists, ids, before, samples, s)
    ensures var id, gt := VariantToId(v), GetSamples(samples, v.gtTypes)[s];
            if id !in GetSet(ids, s) then
              TracksAt(lists[s := GetList(lists, s) + [(v, gt)]], ids[s := GetSet(ids, s) + {id}], before + [v], samples, s)
            else
              TracksAt(lists, ids, before + [v], samples, s)
  {
    SampleCallsSnoc(before, v, samples, s);
    IdsOfSnoc(GetList(lists, s), (v, GetSamples(samples, v.gtTypes)[s]));
  }

  /** Updating the entries of `s` leaves every other sample's agreement as it was. */
  lemma TracksAtFrame(lists: map<string, seq<(Variant, int)>>, ids: map<string, set<string>>,
                      lists': map<string, seq<(Variant, int)>>, ids': map<string, set<string>>, s: string,
                      vs: seq<Variant>, samples: seq<string>)
    requires forall t :: t != s ==> (t in lists <==> t in lists') && (t in lists ==> lists[t] == lists'[t])
    requires forall t :: t != s ==> (t in ids <==> t in ids') && (t in ids ==> ids[t] == ids'[t])
    ensures forall t :: t != s ==>
              (TracksAt(lists, ids, vs, samples, t) <==> TracksAt(lists', ids', vs, samples, t))
  {
  }

  /** Updating the entries of `s` leaves every other sample as it was, done or to do. */
  lemma RecordFrame(lists0: map<string, seq<(Variant, int)>>, ids0: map<string, set<string>>,
                    lists1: map<string, seq<(Variant, int)>>, ids1: map<string, set<string>>,
                    before: seq<Variant>, v: Variant, samples: seq<string>, s: string, todo: set<string>)
    requires forall t :: t in todo ==> TracksAt(lists0, ids0, before, samples, t)
    requires forall t :: t !in todo ==> TracksAt(lists0, ids0, before + [v], samples, t)
    requires forall t :: t != s ==> (t in lists0 <==> t in lists1) && (t in lists0 ==> lists0[t] == lists1[t])
    requires forall t :: t != s ==> (t in ids0 <==> t in ids1) && (t in ids0 ==> ids0[t] == ids1[t])
    ensures forall t :: t != s && t in todo ==> TracksAt(lists1, ids1, before, samples, t)
    ensures forall t :: t != s && t !in todo ==> TracksAt(lists1, ids1, before + [v], samples, t)
  {
    TracksAtFrame(lists0, ids0, lists1, ids1, s, before, samples);
    TracksAtFrame(lists0, ids0, lists1, ids1, s, before + [v], samples);
    forall t | t != s && t in todo ensures TracksAt(lists1, ids1, before, samples, t) {
      assert TracksAt(lists0, ids0, before, samples, t);
    }
    forall t | t != s && t !in todo ensures TracksAt(lists1, ids1, before + [v], samples, t) {
      assert TracksAt(lists0, ids0, before + [v], samples, t);
    }
  }

  /** One turn of the sample loop in `RecordVariant` moves sample `s` from "to do" to "done". */
  lemma RecordStep(lists0: map<string, seq<(Variant, int)>>, ids0: map<string, set<string>>,
                   lists1: map<string, seq<(Variant, int)>>, ids1: map<string, set<string>>,
                   before: seq<Variant>, v: Variant, samples: seq<string>, s: string, todo: set<string>)
    requires s in todo && s in GetSamples(samples, v.gtTypes)
    requires forall t :: t in todo ==> TracksAt(lists0, ids0, before, samples, t)
    requires forall t :: t !in todo ==> TracksAt(lists0, ids0, before + [v], samples, t)
    requires var id, gt := VariantToId(v), GetSamples(samples, v.gtTypes)[s];
             if id !in GetSet(ids0, s) then
               lists1 == lists0[s := GetList(lists0, s) + [(v, gt)]] && ids1 == ids0[s := GetSet(ids0, s) + {id}]
             else
               lists1 == lists0 && ids1 == ids0
    ensures forall t :: t in todo - {s} ==> TracksAt(lists1, ids1, before, samples, t)
    ensures forall t :: t !in todo - {s} ==> TracksAt(lists1, ids1, before + [v], samples, t)
  {
    TrackStep(lists0, ids0, before, v, samples, s);
    assert TracksAt(lists1, ids1, before + [v], samples, s);
    assert forall t :: t != s ==> (t in lists0 <==> t in lists1) && (t in lists0 ==> lists0[t] == lists1[t]);
    assert forall t :: t != s ==> (t in ids0 <==> t in ids1) && (t in ids0 ==> ids0[t] == ids1[t]);
    RecordFrame(lists0, ids0, lists1, ids1, before, v, samples, s, todo);
    forall t | t !in todo - {s} ensures TracksAt(lists1, ids1, before + [v], samples, t) {
      if t != s {
        assert t !in todo;
      }
    }
  }

  /** A sample that does not carry `v` keeps its list and id set, and stays tracked. */
  lemma RecordSkips(lists: map<string, seq<(Variant, int)>>, ids: map<string, set<string>>,
                    samples: seq<string>, v: Variant, before: seq<Variant>)
    requires forall s :: TracksAt(lists, ids, before, samples, s)
    ensures forall s :: s !in GetSamples(samples, v.gtTypes) ==> TracksAt(lists, ids, before + [v], samples, s)
  {
    forall s | s !in GetSamples(samples, v.gtTypes)
      ensures TracksAt(lists, ids, before + [v], samples, s)
    {
      SampleCallsSnoc(before, v, samples, s);
      assert TracksAt(lists, ids, before, samples, s);
    }
  }

  /**
   * The body of the variant loop of `fetch_samples_with_variants`: each sample carrying `v` gets
   * `(v, gt)` appended to its list unless its id set already holds the id of `v`.
   */
  method RecordVariant(lists: map<string, seq<(Variant, int)>>, ids: map<string, set<string>>,
                       samples: seq<string>, v: Variant, ghost before: seq<Variant>)
    returns (lists': map<string, seq<(Variant, int)>>, ids': map<string, set<string>>)
    requires forall s :: TracksAt(lists, ids, before, samples, s)
    ensures forall s :: TracksAt(lists', ids', before + [v], samples, s)
  {
    lists', ids' := lists, ids;
    var gs := GetSamples(samples, v.gtTypes);
    var id := VariantToId(v);
    RecordSkips(lists, ids, samples, v, before);
    var todo := gs.Keys;
    while todo != {}
      invariant todo <= gs.Keys
      invariant forall s :: s in todo ==> TracksAt(lists', ids', before, samples, s)
      invariant forall s :: s !in todo ==> TracksAt(lists', ids', before + [v], samples, s)
      decreases |todo|
    {
      var s :| s in todo;
      ghost var lists0, ids0 := lists', ids';
      var seen := if s in ids' then ids'[s] else {};
      if id !in seen {
        var calls := if s in lists' then lists'[s] else [];
        lists' := lists'[s := calls + [(v, gs[s])]];
        ids' := ids'[s := seen + {id}];
      }
      RecordStep(lists0, ids0, lists', ids', before, v, samples, s, todo);
      assert |todo - {s}| < |todo|;
      todo := todo - {s};
    }
  }

  /**
   * `fetch_samples_with_variants` over the variants fetched for each interval: for each sample,
   * the variants it carries with their genotypes, first occurrence of each id only.
   */
  method FetchSamplesWithVariants(samples: seq<string>, groups: seq<seq<Variant>>)
    returns (r: map<string, seq<(Variant, int)>>)
    ensures forall s :: s in r <==> SampleCalls(Flatten(groups), samples, s) != []
    ensures forall s :: s in r ==> r[s] == SampleCalls(Flatten(groups), samples, s)
  {
    var variantSample: map<string, seq<(Variant, int)>> := map[];
    var seenIds: map<string, set<string>> := map[];
    var i := 0;
    while i < |groups|
      invariant 0 <= i <= |groups|
      invariant forall s :: TracksAt(variantSample, seenIds, Flatten(groups[..i]), samples, s)
    {
      var vs := groups[i];
      ghost var done := Flatten(groups[..i]);
      var j := 0;
      assert done + vs[..0] == done;
      while j < |vs|
        invariant 0 <= j <= |vs|
        invariant forall s :: TracksAt(variantSample, seenIds, done + vs[..j], samples, s)
      {
        var v := vs[j];
        ghost var before := done + vs[..j];
        variantSample, seenIds := RecordVariant(variantSample, seenIds, samples, v, before);
        assert before + [v] == done + vs[..j + 1];
        j := j + 1;
      }
      assert groups[..i + 1][..i] == groups[..i];
      assert vs[..j] == vs;
      assert Flatten(groups[..i + 1]) == done + vs;
      i := i + 1;
    }
    assert groups[..i] == groups;
    r := variantSample;
    forall s ensures (s in r <==> SampleCalls(Flatten(groups), samples, s) != []) &&
                     (s in r ==> r[s] == SampleCalls(Flatten(groups), samples, s))
    {
      assert TracksAt(variantSample, seenIds, Flatten(groups), samples, s);
    }
  }
}
