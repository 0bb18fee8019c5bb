/**
 * Writing the fields of an entry: the fixed fields in table order, stopping at
 * the first failed write, then the caller's additional fields.
 */
module FieldWriter {
  import opened Wrappers
  import opened Text
  import opened Writers
  import opened Format
  import Bibliography

  ghost predicate Distinct(xs: seq<string>)
  {
    forall i, j :: 0 <= i < j < |xs| ==> xs[i] != xs[j]
  }

  /**
   * `order` is an order in which Go's `range` may visit the keys of `m`: every key
   * exactly once. Go leaves that order unspecified, so the model takes it as input.
   */
  ghost predicate IsIterationOrder(order: seq<string>, m: map<string, string>)
  {
    Distinct(order) && forall k :: k in order <==> k in m
  }

  /** The additional fields, visited in `order`. */
  function Additional(m: map<string, string>, order: seq<string>): (r: seq<Field>)
    requires forall k :: k in order ==> k in m
    ensures |r| == |order|
    ensures forall i :: 0 <= i < |order| ==> r[i] == Field(order[i], m[order[i]])
  {
    if order == [] then [] else [Field(order[0], m[order[0]])] + Additional(m, order[1..])
  }

  lemma {:induction false} AdditionalFromMap(m: map<string, string>, order: seq<string>, f: Field)
    requires forall k :: k in order ==> k in m
    requires f in Additional(m, order)
    ensures f.name in order && f.value == m[f.name]
  {
    if f != Field(order[0], m[order[0]]) {
      AdditionalFromMap(m, order[1..], f);
    }
  }

  /** Each additional key/value pair is listed exactly once, and nothing else is listed. */
  lemma {:induction false} AdditionalExactlyOnce(m: map<string, string>, order: seq<string>)
    requires IsIterationOrder(order, m)
    ensures forall f :: f in Additional(m, order) ==> f.name in m && f.value == m[f.name]
    ensures forall k :: k in m ==> multiset(Additional(m, order))[Field(k, m[k])] == 1
  {
    forall f | f in Additional(m, order) ensures f.name in m && f.value == m[f.name] {
      AdditionalFromMap(m, order, f);
    }
    if order == [] {
      assert forall k :: k !in m by {
        forall k ensures k !in m { assert k !in order; }
      }
    } else {
      var k0 := order[0];
      var rest := order[1..];
      var m' := m - {k0};
      IterationOrderTail(m, order);
      AdditionalExactlyOnce(m', rest);
      assert Additional(m, rest) == Additional(m', rest) by { SameAdditional(m, m', rest); }
      forall k | k in m ensures multiset(Additional(m, order))[Field(k, m[k])] == 1 {
        assert Additional(m, order) == [Field(k0, m[k0])] + Additional(m', rest);
        if k == k0 {
          assert Field(k, m[k]) !in Additional(m', rest);
        } else {
          assert k in m';
        }
      }
    }
  }

  /** After its first key, an iteration order of `m` is one of `m` without that key. */
  lemma IterationOrderTail(m: map<string, string>, order: seq<string>)
    requires IsIterationOrder(order, m) && order != []
    ensures IsIterationOrder(order[1..], m - {order[0]})
  {
    var rest, m' := order[1..], m - {order[0]};
    forall k ensures k in rest <==> k in m' {
      if k in rest {
        var i :| 0 <= i < |rest| && rest[i] == k;
        assert order[i + 1] == k;
      }
    }
    forall i, j | 0 <= i < j < |rest| ensures rest[i] != rest[j] {
      assert rest[i] == order[i + 1] && rest[j] == order[j + 1];
    }
  }

  lemma {:induction false} SameAdditional(m: map<string, string>, m': map<string, string>, order: seq<string>)
    requires forall k :: k in order ==> k in m && k in m' && m[k] == m'[k]
    ensures Additional(m, order) == Additional(m', order)
  {
    if order != [] {
      SameAdditional(m, m', order[1..]);
    }
  }

  /**
   * The 22 guarded writes of the fixed fields. Each present field is written; a
   * failed write ends the sequence at once and its error is returned. `err0` is the
   * value the error variable holds before the sequence: it is returned unchanged
   * when no field is present, and replaced by the result of every write otherwise.
   */
  method WriteFixedFields(sink: Sink, e: Bibliography.Entry, err0: Option<Error>) returns (err: Option<Error>)
    modifies sink
    ensures var r := Run(FieldTexts(PresentFields(e)), old(sink.attempts), sink.fails);
            && sink.out == old(sink.out) + r.text
            && sink.attempts == old(sink.attempts) + r.attempts
            && err == (if r.err.Some? then r.err else if PresentFields(e) == [] then err0 else None)
  {
    err := WriteRows(sink, Slots(e), err0);
  }

  /** The guarded writes for the rows of a field table, in table order. */
  method WriteRows(sink: Sink, slots: seq<Slot>, err0: Option<Error>) returns (err: Option<Error>)
    modifies sink
    ensures var r := Run(FieldTexts(Emitted(slots)), old(sink.attempts), sink.fails);
            && sink.out == old(sink.out) + r.text
            && sink.attempts == old(sink.attempts) + r.attempts
            && err == (if r.err.Some? then r.err else if Emitted(slots) == [] then err0 else None)
  {
    ghost var start, out0 := sink.attempts, sink.out;
    err := err0;
    var i := 0;
    while i < |slots|
      invariant 0 <= i <= |slots|
      invariant Run(FieldTexts(Emitted(slots[..i])), start, sink.fails).err.None?
      invariant sink.out == out0 + Run(FieldTexts(Emitted(slots[..i])), start, sink.fails).text
      invariant sink.attempts == start + Run(FieldTexts(Emitted(slots[..i])), start, sink.fails).attempts
      invariant err == if Emitted(slots[..i]) == [] then err0 else None
    {
      ghost var done := FieldTexts(Emitted(slots[..i]));
      RowStep(slots, i);
      if slots[i].present {
        var text := FieldText(Field(slots[i].name, slots[i].value));
        ghost var outBefore, attemptsBefore := sink.out, sink.attempts;
        err := sink.Write(text);
        WriteExtendsRun(done, text, start, sink.fails, out0, outBefore, attemptsBefore, sink.out, sink.attempts, err);
        if err.Some? {
          RestIgnoredAfterFailure(slots, i + 1, start, sink.fails);
          return;
        }
      }
      i := i + 1;
    }
    assert slots[..i] == slots;
  }

  /** The writes for the rows up to `i`, extended by row `i`. */
  lemma RowStep(slots: seq<Slot>, i: nat)
    requires i < |slots|
    ensures |FieldTexts(Emitted(slots[..i]))| == |Emitted(slots[..i])|
    ensures Emitted(slots[..i + 1]) == [] <==> Emitted(slots[..i]) == [] && !slots[i].present
    ensures FieldTexts(Emitted(slots[..i + 1]))
            == if slots[i].present then FieldTexts(Emitted(slots[..i])) + [FieldText(Field(slots[i].name, slots[i].value))]
               else FieldTexts(Emitted(slots[..i]))
  {
    var done := Emitted(slots[..i]);
    FieldTextsLength(done);
    assert slots[..i + 1] == slots[..i] + [slots[i]];
    EmittedAppend(slots[..i], [slots[i]]);
    assert [slots[i]][1..] == [];
    var f := Field(slots[i].name, slots[i].value);
    if slots[i].present {
      assert Emitted(slots[..i + 1]) == done + [f];
      FieldTextsAppend(done, [f]);
      assert FieldTexts([f]) == [FieldText(f)];
    } else {
      assert Emitted(slots[..i + 1]) == done;
    }
  }

  /** Once the writes of the rows before `i` have failed, the rows from `i` on change nothing. */
  lemma RestIgnoredAfterFailure(slots: seq<Slot>, i: nat, start: nat, fails: nat -> bool)
    requires i <= |slots|
    requires Run(FieldTexts(Emitted(slots[..i])), start, fails).err.Some?
    ensures Run(FieldTexts(Emitted(slots)), start, fails) == Run(FieldTexts(Emitted(slots[..i])), start, fails)
  {
    assert slots == slots[..i] + slots[i..];
    EmittedAppend(slots[..i], slots[i..]);
    FieldTextsAppend(Emitted(slots[..i]), Emitted(slots[i..]));
    RunAppend(FieldTexts(Emitted(slots[..i])), FieldTexts(Emitted(slots[i..])), start, fails);
  }

  /** What `writeFieldsFromEntry` leaves behind: the fixed fields, then the additional ones, up to the first failure. */
  function FieldsOutcome(e: Bibliography.Entry, m: map<string, string>, order: seq<string>,
                         start: nat, fails: nat -> bool): Outcome
    requires forall k :: k in order ==> k in m
  {
    Run(FieldTexts(PresentFields(e)) + FieldTexts(Additional(m, order)), start, fails)
  }

  /**
   * `writeFieldsFromEntry(writer, entry, additionalFields)`: the fixed fields, then
   * one write per additional field in the map's iteration order, each guarded by
   * "no error yet".
   */
  method WriteFieldsFromEntry(sink: Sink, e: Bibliography.Entry, m: map<string, string>, order: seq<string>)
    returns (err: Option<Error>)
    requires IsIterationOrder(order, m)
    modifies sink
    ensures var r := FieldsOutcome(e, m, order, old(sink.attempts), sink.fails);
            sink.out == old(sink.out) + r.text && sink.attempts == old(sink.attempts) + r.attempts && err == r.err
  {
    ghost var out0, start := sink.out, sink.attempts;
    err := WriteFixedFields(sink, e, None);
    ghost var outMid, attemptsMid, errMid := sink.out, sink.attempts, err;
    if err.None? {
      err := WriteAdditional(sink, m, order);
    }
    RunThen(FieldTexts(PresentFields(e)), FieldTexts(Additional(m, order)), start, sink.fails, out0,
            outMid, attemptsMid, errMid, sink.out, sink.attempts, err);
  }

  /** The loop over the additional fields: each is written while no write has failed. */
  method WriteAdditional(sink: Sink, m: map<string, string>, order: seq<string>) returns (err: Option<Error>)
    requires forall k :: k in order ==> k in m
    modifies sink
    ensures var r := Run(FieldTexts(Additional(m, order)), old(sink.attempts), sink.fails);
            sink.out == old(sink.out) + r.text && sink.attempts == old(sink.attempts) + r.attempts && err == r.err
  {
    ghost var start, out0 := sink.attempts, sink.out;
    err := None;
    assert order[..0] == [];
    for i := 0 to |order|
      invariant sink.out == out0 + Run(FieldTexts(Additional(m, order[..i])), start, sink.fails).text
      invariant sink.attempts == start + Run(FieldTexts(Additional(m, order[..i])), start, sink.fails).attempts
      invariant err == Run(FieldTexts(Additional(m, order[..i])), start, sink.fails).err
    {
      ghost var done := FieldTexts(Additional(m, order[..i]));
      var text := FieldText(Field(order[i], m[order[i]]));
      AdditionalStep(m, order, i);
      if err.None? {
        ghost var outBefore, attemptsBefore := sink.out, sink.attempts;
        err := sink.Write(text);
        WriteExtendsRun(done, text, start, sink.fails, out0, outBefore, attemptsBefore, sink.out, sink.attempts, err);
      } else {
        RunSnoc(done, text, start, sink.fails);
      }
    }
    assert order[..|order|] == order;
  }

  lemma AdditionalStep(m: map<string, string>, order: seq<string>, i: nat)
    requires forall k :: k in order ==> k in m
    requires i < |order|
    ensures FieldTexts(Additional(m, order[..i + 1]))
            == FieldTexts(Additional(m, order[..i])) + [FieldText(Field(order[i], m[order[i]]))]
  {
    AdditionalSnoc(m, order, i);
    FieldTextsAppend(Additional(m, order[..i]), [Field(order[i], m[order[i]])]);
    assert FieldTexts([Field(order[i], m[order[i]])]) == [FieldText(Field(order[i], m[order[i]]))];
  }

  lemma AdditionalSnoc(m: map<string, string>, order: seq<string>, i: nat)
    requires forall k :: k in order ==> k in m
    requires i < |order|
    ensures Additional(m, order[..i + 1]) == Additional(m, order[..i]) + [Field(order[i], m[order[i]])]
  {
    var longer, shorter := Additional(m, order[..i + 1]), Additional(m, order[..i]);
    var f := Field(order[i], m[order[i]]);
    forall j | 0 <= j <= i ensures longer[j] == (shorter + [f])[j] {
      assert order[..i + 1][j] == order[j];
      if j < i {
        assert order[..i][j] == order[j];
      }
    }
  }

  // ---------------------------------------------------------------------------
  // Properties of writeFieldsFromEntry

  /** With no failure, every present fixed field is written, then every additional field after all of them. */
  lemma FieldsAllSucceed(e: Bibliography.Entry, m: map<string, string>, order: seq<string>,
                         start: nat, fails: nat -> bool)
    requires IsIterationOrder(order, m)
    requires forall i :: start <= i < start + |PresentFields(e)| + |order| ==> !fails(i)
    ensures FieldsOutcome(e, m, order, start, fails).err == None
    ensures FieldsOutcome(e, m, order, start, fails).text
            == Concat(FieldTexts(PresentFields(e))) + Concat(FieldTexts(Additional(m, order)))
  {
    var fixed := FieldTexts(PresentFields(e));
    var extra := FieldTexts(Additional(m, order));
    FieldTextsLength(PresentFields(e));
    FieldTextsLength(Additional(m, order));
    AdditionalLength(m, order);
    RunAllSucceed(fixed + extra, start, fails);
    ConcatAppend(fixed, extra);
  }

  lemma {:induction false} AdditionalLength(m: map<string, string>, order: seq<string>)
    requires forall k :: k in order ==> k in m
    ensures |Additional(m, order)| == |order|
  {
    if order != [] {
      AdditionalLength(m, order[1..]);
    }
  }

  /** A failed fixed-field write ends everything: no later fixed field and no additional field is written. */
  lemma FixedFailureStopsAll(e: Bibliography.Entry, m: map<string, string>, order: seq<string>,
                             start: nat, fails: nat -> bool)
    requires IsIterationOrder(order, m)
    requires Run(FieldTexts(PresentFields(e)), start, fails).err.Some?
    ensures FieldsOutcome(e, m, order, start, fails) == Run(FieldTexts(PresentFields(e)), start, fails)
  {
    RunAppend(FieldTexts(PresentFields(e)), FieldTexts(Additional(m, order)), start, fails);
  }

  /** Once an additional-field write fails, no further additional field is written and that error is returned. */
  lemma AdditionalFailureStopsRest(e: Bibliography.Entry, m: map<string, string>, order: seq<string>,
                                   start: nat, fails: nat -> bool, k: nat)
    requires IsIterationOrder(order, m)
    requires k < |order|
    requires forall i :: start <= i < start + |PresentFields(e)| + k ==> !fails(i)
    requires fails(start + |PresentFields(e)| + k)
    ensures FieldsOutcome(e, m, order, start, fails)
            == Outcome(Concat(FieldTexts(PresentFields(e))) + Concat(FieldTexts(Additional(m, order[..k]))),
                       |PresentFields(e)| + k + 1,
                       Some(WriteFailure(start + |PresentFields(e)| + k)))
  {
    FieldTextsLength(PresentFields(e));
    AdditionalTextsPrefix(m, order, k);
    RunFailsInSecond(FieldTexts(PresentFields(e)), FieldTexts(Additional(m, order)), start, fails, k);
  }

  /** The texts of the first `k` additional fields are the first `k` additional texts. */
  lemma AdditionalTextsPrefix(m: map<string, string>, order: seq<string>, k: nat)
    requires forall key :: key in order ==> key in m
    requires k < |order|
    ensures |FieldTexts(Additional(m, order))| == |order|
    ensures FieldTexts(Additional(m, order))[..k] == FieldTexts(Additional(m, order[..k]))
  {
    AdditionalLength(m, order);
    FieldTextsLength(Additional(m, order));
    assert order == order[..k] + order[k..];
    AdditionalAppend(m, order[..k], order[k..]);
    FieldTextsAppend(Additional(m, order[..k]), Additional(m, order[k..]));
    AdditionalLength(m, order[..k]);
    FieldTextsLength(Additional(m, order[..k]));
  }

  lemma {:induction false} AdditionalAppend(m: map<string, string>, a: seq<string>, b: seq<string>)
    requires forall k :: k in a + b ==> k in m
    ensures Additional(m, a + b) == Additional(m, a) + Additional(m, b)
  {
    if a != [] {
      assert (a + b)[1..] == a[1..] + b;
      AdditionalAppend(m, a[1..], b);
    } else {
      assert a + b == b;
    }
  }

  /**
   * A record with no fixed field present (such as the zero record, see
   * `Format.ZeroEmitsNothing`) and no additional fields (an empty map, whose iteration order is empty)
   * writes nothing and returns nil.
   */
  lemma NothingToWrite(e: Bibliography.Entry, m: map<string, string>, order: seq<string>,
                       start: nat, fails: nat -> bool)
    requires PresentFields(e) == []
    requires m == map[] && order == []
    ensures FieldsOutcome(e, m, order, start, fails) == Outcome("", 0, None)
  {
    assert Additional(m, order) == [];
    assert FieldTexts(PresentFields(e)) + FieldTexts(Additional(m, order)) == [];
  }
}
