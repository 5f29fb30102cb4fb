/** The extraction gate: the scan of data_gateway_node over the suppliers' extraction results. */
module ExtractionGate {
  import opened Common

  /** CONFIDENCE_THRESHOLD. */
  const THRESHOLD := 0.85

  /** One extraction result: the values of its confidence map, whether the supplier confirmed it, and
      whether its provider type asks for a field it does not have. */
  datatype Document = Document(confidences: seq<real>, confirmed: bool, missing: bool)

  function Smallest(values: seq<real>, start: real): real {
    if values == [] then start
    else
      var m := Smallest(values[..|values| - 1], start);
      var v := values[|values| - 1];
      if v < m then v else m
  }

  /** The lowest confidence of all results, never above 1. */
  function Lowest(documents: seq<Document>): real {
    if documents == [] then 1.0
    else Smallest(documents[|documents| - 1].confidences, Lowest(documents[..|documents| - 1]))
  }

  /** low_conf is false. */
  predicate Passes(documents: seq<Document>) {
    forall d :: d in documents ==>
      d.confirmed && !d.missing && forall c :: c in d.confidences ==> c >= THRESHOLD
  }

  lemma {:induction false} SmallestBounds(values: seq<real>, start: real, t: real)
    ensures Smallest(values, start) >= t <==> start >= t && forall v :: v in values ==> v >= t
  {
    if values != [] {
      var front, last := values[..|values| - 1], values[|values| - 1];
      assert values == front + [last];
      SmallestBounds(front, start, t);
      assert forall v :: v in front ==> v in values;
      assert last in values;
      if Smallest(values, start) >= t {
        forall v | v in values ensures v >= t {
          assert v in front || v == last;
        }
      }
    }
  }

  lemma {:induction false} LowestBounds(documents: seq<Document>, t: real)
    ensures Lowest(documents) >= t
            <==> t <= 1.0 && forall d, c :: d in documents && c in d.confidences ==> c >= t
  {
    if documents != [] {
      var front, last := documents[..|documents| - 1], documents[|documents| - 1];
      assert documents == front + [last];
      LowestBounds(front, t);
      SmallestBounds(last.confidences, Lowest(front), t);
    }
  }

  /** min(cmap.values()) folded into the running minimum. */
  method Fold(values: seq<real>, start: real) returns (m: real)
    ensures m == Smallest(values, start)
  {
    m := start;
    var i := 0;
    while i < |values|
      invariant i <= |values| && m == Smallest(values[..i], start)
    {
      assert values[..i + 1][..i] == values[..i];
      if values[i] < m {
        m := values[i];
      }
      i := i + 1;
    }
    assert values[..i] == values;
  }

  /** The loop of the gate: it lets the batch through iff every result is confirmed, complete and at or
      above the threshold in every field. */
  method Scan(documents: seq<Document>) returns (lowest: real, unconfirmed: nat, hasMissing: bool)
    ensures lowest == Lowest(documents)
    ensures Passes(documents) <==> !(lowest < THRESHOLD || unconfirmed > 0 || hasMissing)
  {
    lowest, unconfirmed, hasMissing := 1.0, 0, false;
    var i := 0;
    while i < |documents|
      invariant i <= |documents| && lowest == Lowest(documents[..i])
      invariant unconfirmed > 0 <==> exists k :: 0 <= k < i && !documents[k].confirmed
      invariant hasMissing <==> exists k :: 0 <= k < i && documents[k].missing
    {
      var d := documents[i];
      assert documents[..i + 1][..i] == documents[..i];
      lowest := Fold(d.confidences, lowest);
      if !d.confirmed {
        unconfirmed := unconfirmed + 1;
      }
      if d.missing {
        hasMissing := true;
      }
      i := i + 1;
    }
    assert documents[..i] == documents;
    LowestBounds(documents, THRESHOLD);
    if Passes(documents) {
      assert forall k :: 0 <= k < |documents| ==> documents[k] in documents;
    }
  }
}
