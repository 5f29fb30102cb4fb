/**
 Merging the extracted fields of several documents by best confidence: the prefill loop and the
 integrity-pair loop, and the assembly of the prefilled form.
 */
module FieldMerge {
  import opened Common
  import ExtractionGate

  /** An entry of confidence_map as float() sees it. */
  datatype RawConfidence = Absent | Unreadable | Number(value: real)

  datatype Field = Field(key: string, value: string, raw: RawConfidence)

  /** One extraction result: parsed_fields in dict order with their confidences. */
  datatype Document = Document(confirmed: bool, fields: seq<Field>)

  function Confidence(f: Field): real {
    if f.raw.Number? then f.raw.value else 0.0
  }

  datatype Best = Best(value: string, confidence: real)

  function Improves(m: map<string, Best>, f: Field): bool {
    f.key !in m || Confidence(f) > m[f.key].confidence
  }

  function MergeFields(fields: seq<Field>): map<string, Best> {
    if fields == [] then map[]
    else
      var m := MergeFields(fields[..|fields| - 1]);
      var f := fields[|fields| - 1];
      if Improves(m, f) then m[f.key := Best(f.value, Confidence(f))] else m
  }

  /** All fields of all documents, one after the other. */
  function Flat(documents: seq<Document>): seq<Field> {
    if documents == [] then [] else Flat(documents[..|documents| - 1]) + documents[|documents| - 1].fields
  }

  function Confirmed(documents: seq<Document>): seq<Document> {
    if documents == [] then []
    else
      var last := documents[|documents| - 1];
      Confirmed(documents[..|documents| - 1]) + (if last.confirmed then [last] else [])
  }

  /** The two dicts of a loop hold the merge m. */
  ghost predicate Holds(values: map<string, string>, confidences: map<string, real>, m: map<string, Best>) {
    && values.Keys == m.Keys == confidences.Keys
    && forall k :: k in m ==> m[k] == Best(values[k], confidences[k])
  }

  lemma MergeStep(before: seq<Field>, fields: seq<Field>, j: nat)
    requires j < |fields|
    ensures
      var m := MergeFields(before + fields[..j]);
      MergeFields(before + fields[..j + 1])
      == if Improves(m, fields[j]) then m[fields[j].key := Best(fields[j].value, Confidence(fields[j]))] else m
  {
    assert (before + fields[..j + 1])[..|before| + j] == before + fields[..j];
  }

  lemma FlatStep(documents: seq<Document>, i: nat)
    requires i < |documents|
    ensures Flat(documents[..i + 1]) == Flat(documents[..i]) + documents[i].fields
    ensures Confirmed(documents[..i + 1])
            == Confirmed(documents[..i]) + (if documents[i].confirmed then [documents[i]] else [])
    ensures Flat(Confirmed(documents[..i + 1]))
            == Flat(Confirmed(documents[..i])) + (if documents[i].confirmed then documents[i].fields else [])
  {
    assert documents[..i + 1][..i] == documents[..i];
    var kept := Confirmed(documents[..i]);
    assert (kept + [documents[i]])[..|kept|] == kept;
    assert kept + [] == kept;
  }

  lemma NothingMerged()
    ensures Flat([]) == [] && Confirmed([]) == [] && MergeFields([]) == map[]
  {
  }

  /** The loop of get_master_form_prefill, over all documents of the supplier. */
  method MergeForPrefill(documents: seq<Document>)
      returns (values: map<string, string>, confidences: map<string, real>, unconfirmed: nat)
    ensures Holds(values, confidences, MergeFields(Flat(documents)))
    ensures unconfirmed == |documents| - |Confirmed(documents)|
  {
    hide Flat, Confirmed, MergeFields;
    NothingMerged();
    values, confidences, unconfirmed := map[], map[], 0;
    var i := 0;
    while i < |documents|
      invariant i <= |documents| && Holds(values, confidences, MergeFields(Flat(documents[..i])))
      invariant unconfirmed == i - |Confirmed(documents[..i])|
    {
      FlatStep(documents, i);
      ghost var before := Flat(documents[..i]);
      var fields := documents[i].fields;
      assert before + fields[..0] == before;
      var j := 0;
      while j < |fields|
        invariant j <= |fields| && Holds(values, confidences, MergeFields(before + fields[..j]))
      {
        MergeStep(before, fields, j);
        var f := fields[j];
        if f.key !in confidences || Confidence(f) > confidences[f.key] {
          values := values[f.key := f.value];
          confidences := confidences[f.key := Confidence(f)];
        }
        j := j + 1;
      }
      assert fields[..j] == fields;
      if !documents[i].confirmed {
        unconfirmed := unconfirmed + 1;
      }
      i := i + 1;
    }
    assert documents[..i] == documents;
  }

  /** The loop of get_integrity_pairs: the same merge, written again, skipping unconfirmed documents. */
  method MergeForIntegrity(documents: seq<Document>)
    returns (values: map<string, string>, confidences: map<string, real>)
    ensures Holds(values, confidences, MergeFields(Flat(Confirmed(documents))))
  {
    hide Flat, Confirmed, MergeFields;
    NothingMerged();
    values, confidences := map[], map[];
    var i := 0;
    while i < |documents|
      invariant i <= |documents| && Holds(values, confidences, MergeFields(Flat(Confirmed(documents[..i]))))
    {
      FlatStep(documents, i);
      ghost var before := Flat(Confirmed(documents[..i]));
      if documents[i].confirmed {
        var fields := documents[i].fields;
        assert before + fields[..0] == before;
        var j := 0;
        while j < |fields|
          invariant j <= |fields| && Holds(values, confidences, MergeFields(before + fields[..j]))
        {
          MergeStep(before, fields, j);
          var f := fields[j];
          if f.key !in confidences || Confidence(f) > confidences[f.key] {
            values := values[f.key := f.value];
            confidences := confidences[f.key := Confidence(f)];
          }
          j := j + 1;
        }
        assert fields[..j] == fields;
      } else {
        assert before + [] == before;
      }
      i := i + 1;
    }
    assert documents[..i] == documents;
  }

  lemma {:induction false} ConfirmedOfConfirmed(documents: seq<Document>)
    requires forall d :: d in documents ==> d.confirmed
    ensures Confirmed(documents) == documents
  {
    if documents != [] {
      var front, last := documents[..|documents| - 1], documents[|documents| - 1];
      assert documents == front + [last];
      ConfirmedOfConfirmed(front);
    }
  }

  /** Given the same confirmed documents, both loops end with the same dicts. */
  lemma LoopsAgree(documents: seq<Document>, v: map<string, string>, c: map<string, real>, w: map<string, string>,
                   d: map<string, real>)
    requires forall x :: x in documents ==> x.confirmed
    requires Holds(v, c, MergeFields(Flat(documents))) && Holds(w, d, MergeFields(Flat(Confirmed(documents))))
    ensures v == w && c == d
  {
    ConfirmedOfConfirmed(documents);
    var m := MergeFields(Flat(documents));
    assert forall k :: k in m ==> v[k] == m[k].value == w[k] && c[k] == m[k].confidence == d[k];
  }

  /** Position i of the fields is the first with the greatest confidence among those of its key. */
  ghost predicate FirstBest(fields: seq<Field>, i: nat, key: string) {
    && i < |fields| && fields[i].key == key
    && (forall j :: 0 <= j < i && fields[j].key == key ==> Confidence(fields[j]) < Confidence(fields[i]))
    && forall j :: i < j < |fields| && fields[j].key == key ==> Confidence(fields[j]) <= Confidence(fields[i])
  }

  /** Every key of any document, and no other, is in the merge. */
  lemma {:induction false} MergedKeys(fields: seq<Field>, key: string)
    ensures key in MergeFields(fields) <==> exists j :: 0 <= j < |fields| && fields[j].key == key
  {
    if fields != [] {
      var n := |fields| - 1;
      MergedKeys(fields[..n], key);
      if fields[n].key == key {
        assert exists j :: 0 <= j < |fields| && fields[j].key == key;
      }
    }
  }

  /** The merge keeps, for each of its keys, the first value with the greatest confidence. */
  lemma {:induction false} MergeIsFirstBest(fields: seq<Field>, key: string) returns (i: nat)
    requires key in MergeFields(fields)
    ensures FirstBest(fields, i, key) && MergeFields(fields)[key] == Best(fields[i].value, Confidence(fields[i]))
  {
    var n := |fields| - 1;
    var front, last := fields[..n], fields[n];
    if key in MergeFields(front) {
      i := MergeIsFirstBest(front, key);
      if last.key == key && Confidence(last) > Confidence(front[i]) {
        i := n;
      }
    } else {
      MergedKeys(front, key);
      i := n;
    }
  }

  /** A confidence that is absent or no number counts as 0: it yields to any later number above 0, and
      prevails over a later one otherwise. */
  lemma NoNumberCountsAsZero(fields: seq<Field>, key: string) returns (i: nat)
    requires key in MergeFields(fields)
    ensures i < |fields| && fields[i].key == key && MergeFields(fields)[key].value == fields[i].value
    ensures
      var kept := MergeFields(fields)[key].confidence;
      && (fields[i].raw == Number(kept) || (kept == 0.0 && (fields[i].raw == Absent || fields[i].raw == Unreadable)))
      && (forall j, c :: 0 <= j < |fields| && fields[j].key == key && fields[j].raw == Number(c) ==>
            c <= kept && (j < i ==> c < kept))
      && (forall j ::
            0 <= j < |fields| && fields[j].key == key && (fields[j].raw == Absent || fields[j].raw == Unreadable) ==>
            0.0 <= kept && (j < i ==> 0.0 < kept))
  {
    i := MergeIsFirstBest(fields, key);
  }

  lemma {:induction false} InFlat(documents: seq<Document>, f: Field)
    ensures f in Flat(documents) <==> exists d :: d in documents && f in d.fields
  {
    if documents != [] {
      var front, last := documents[..|documents| - 1], documents[|documents| - 1];
      InFlat(front, f);
      assert forall d :: d in documents <==> d in front || d == last;
    }
  }

  /** The greatest confidence of a key depends on which documents there are, not on the order or the
      number of times they are read. */
  lemma BestConfidenceIgnoresOrder(a: seq<Document>, b: seq<Document>, key: string)
    requires forall d :: d in a <==> d in b
    ensures key in MergeFields(Flat(a)) <==> key in MergeFields(Flat(b))
    ensures key in MergeFields(Flat(a)) ==>
              MergeFields(Flat(a))[key].confidence == MergeFields(Flat(b))[key].confidence
  {
    BestIsUpperBound(a, b, key);
    BestIsUpperBound(b, a, key);
  }

  lemma BestIsUpperBound(a: seq<Document>, b: seq<Document>, key: string)
    requires forall d :: d in b ==> d in a
    ensures key in MergeFields(Flat(b)) ==>
              && key in MergeFields(Flat(a))
              && MergeFields(Flat(b))[key].confidence <= MergeFields(Flat(a))[key].confidence
  {
    if key in MergeFields(Flat(b)) {
      var i := MergeIsFirstBest(Flat(b), key);
      var f := Flat(b)[i];
      InFlat(b, f);
      InFlat(a, f);
      var j :| 0 <= j < |Flat(a)| && Flat(a)[j] == f;
      MergedKeys(Flat(a), key);
      var best := MergeIsFirstBest(Flat(a), key);
    }
  }

  // ---- The prefilled form ----

  datatype Kind = Text | Whole | Decimal

  /** An entry of FIELD_CATALOG. */
  datatype CatalogField = CatalogField(name: string, section: string, kind: Kind)

  /** A value in the form after coercion, by field name. */
  datatype Filled = Filled(section: string, value: string)

  datatype Doubt = Doubt(section: string, name: string, value: string, confidence: real)

  type Coercion = (string, Kind) -> Option<string>

  /** The form: the catalog fields that were extracted and could be coerced. */
  predicate Prefilled(f: CatalogField, best: map<string, Best>, coerce: Coercion) {
    f.name in best && coerce(best[f.name].value, f.kind).Some?
  }

  /** The doubtful entries a form must list: exactly its fields below the threshold, in catalog order. */
  function Doubts(catalog: seq<CatalogField>, best: map<string, Best>, coerce: Coercion): seq<Doubt> {
    if catalog == [] then []
    else
      var f := catalog[|catalog| - 1];
      Doubts(catalog[..|catalog| - 1], best, coerce)
      + (if Prefilled(f, best, coerce) && best[f.name].confidence < ExtractionGate.THRESHOLD
         then [Doubt(f.section, f.name, coerce(best[f.name].value, f.kind).value, best[f.name].confidence)]
         else [])
  }

  /** The form, field by field. */
  function Form(catalog: seq<CatalogField>, best: map<string, Best>, coerce: Coercion): map<string, Filled> {
    if catalog == [] then map[]
    else
      var f := catalog[|catalog| - 1];
      var m := Form(catalog[..|catalog| - 1], best, coerce);
      if Prefilled(f, best, coerce) then m[f.name := Filled(f.section, coerce(best[f.name].value, f.kind).value)] else m
  }

  /** to_master_form_prefill. */
  method ToPrefill(catalog: seq<CatalogField>, best: map<string, Best>, coerce: Coercion)
      returns (prefill: map<string, Filled>, doubts: seq<Doubt>)
    ensures prefill == Form(catalog, best, coerce) && doubts == Doubts(catalog, best, coerce)
  {
    prefill, doubts := map[], [];
    var k := 0;
    while k < |catalog|
      invariant k <= |catalog|
      invariant prefill == Form(catalog[..k], best, coerce) && doubts == Doubts(catalog[..k], best, coerce)
    {
      var f := catalog[k];
      assert catalog[..k + 1][..k] == catalog[..k];
      if f.name in best {
        var coerced := coerce(best[f.name].value, f.kind);
        if coerced.Some? {
          prefill := prefill[f.name := Filled(f.section, coerced.value)];
          if best[f.name].confidence < ExtractionGate.THRESHOLD {
            doubts := doubts + [Doubt(f.section, f.name, coerced.value, best[f.name].confidence)];
          }
        }
      }
      k := k + 1;
    }
    assert catalog[..k] == catalog;
  }

  ghost predicate DistinctNames(catalog: seq<CatalogField>) {
    forall i, j :: 0 <= i < j < |catalog| ==> catalog[i].name != catalog[j].name
  }

  /** The form holds a field of the catalog iff it was extracted and could be coerced. */
  lemma {:induction false} FormIsExact(catalog: seq<CatalogField>, best: map<string, Best>, coerce: Coercion,
                                       f: CatalogField)
    requires f in catalog && DistinctNames(catalog)
    ensures f.name in Form(catalog, best, coerce) <==> Prefilled(f, best, coerce)
    ensures Prefilled(f, best, coerce) ==>
              Form(catalog, best, coerce)[f.name] == Filled(f.section, coerce(best[f.name].value, f.kind).value)
  {
    var n := |catalog| - 1;
    var front, last := catalog[..n], catalog[n];
    if last == f {
      NotInForm(front, best, coerce, f.name);
    } else {
      assert f in front;
      var i :| 0 <= i < n && catalog[i] == f;
      FormIsExact(front, best, coerce, f);
    }
  }

  lemma {:induction false} NotInForm(catalog: seq<CatalogField>, best: map<string, Best>, coerce: Coercion,
                                     name: string)
    requires forall i :: 0 <= i < |catalog| ==> catalog[i].name != name
    ensures name !in Form(catalog, best, coerce)
  {
    if catalog != [] {
      NotInForm(catalog[..|catalog| - 1], best, coerce, name);
    }
  }

  /** A field is listed as doubtful iff it is in the form and every document that has it is below the
      threshold for it: one confident document is enough. */
  lemma {:induction false} DoubtfulIff(catalog: seq<CatalogField>, fields: seq<Field>, coerce: Coercion,
                                       f: CatalogField)
    requires f in catalog
    requires DistinctNames(catalog)
    ensures (exists d :: d in Doubts(catalog, MergeFields(fields), coerce) && d.name == f.name)
            <==> Prefilled(f, MergeFields(fields), coerce)
                 && forall j :: 0 <= j < |fields| && fields[j].key == f.name ==> Confidence(fields[j]) < 0.85
  {
    var best := MergeFields(fields);
    if f.name in best {
      var i := MergeIsFirstBest(fields, f.name);
    }
    DoubtNames(catalog, best, coerce, f);
  }

  lemma {:induction false} DoubtNames(catalog: seq<CatalogField>, best: map<string, Best>, coerce: Coercion,
                                      f: CatalogField)
    requires f in catalog
    requires DistinctNames(catalog)
    ensures (exists d :: d in Doubts(catalog, best, coerce) && d.name == f.name)
            <==> Prefilled(f, best, coerce) && best[f.name].confidence < ExtractionGate.THRESHOLD
  {
    var n := |catalog| - 1;
    var front, last := catalog[..n], catalog[n];
    if last == f {
      NoDoubtFor(front, best, coerce, f.name);
    } else {
      assert f in front;
      var i :| 0 <= i < n && catalog[i] == f;
      DoubtNames(front, best, coerce, f);
    }
  }

  lemma {:induction false} NoDoubtFor(catalog: seq<CatalogField>, best: map<string, Best>, coerce: Coercion,
                                      name: string)
    requires forall i :: 0 <= i < |catalog| ==> catalog[i].name != name
    ensures forall d :: d in Doubts(catalog, best, coerce) ==> d.name != name
  {
    if catalog != [] {
      NoDoubtFor(catalog[..|catalog| - 1], best, coerce, name);
    }
  }
}
