/** Laws relating the handlers to one another and to the stored sequence:
    validation comes before any store access, submit and delete undo each
    other, delete shifts later records down, edit touches one position,
    every handler keeps the store valid and its ids distinct, and search
    selects exactly the matching records in order. */
module StoreLaws {
  import opened Options
  import opened IntParsing
  import opened Submissions
  import opened Controller

  // ---------------------------------------------------------------------
  // Validation
  // ---------------------------------------------------------------------

  /** Submit and edit reject exactly the same field sets with the same
      error, and the answer depends neither on the store nor on the index:
      a rejected request never reads or writes the store. */
  lemma ValidationPrecedesStore(
    s1: seq<Submission>, s2: seq<Submission>, index: Option<int>, f: Fields,
    id: string, createdAt: Time, updatedAt: Time, now: Time)
    ensures Submit(s1, f, id, createdAt, updatedAt).response.Invalid?
            <==> Edit(s2, index, f, now).response.Invalid?
    ensures Submit(s1, f, id, createdAt, updatedAt).response.Invalid? ==>
              && Submit(s1, f, id, createdAt, updatedAt).response
                 == Edit(s2, index, f, now).response
              && Submit(s1, f, id, createdAt, updatedAt).store == s1
              && Edit(s2, index, f, now).store == s2
  {
  }

  /** The fields of every record are valid. This holds of every store the
      handlers build from a valid one. */
  predicate StoreValid(store: seq<Submission>) {
    forall i :: 0 <= i < |store| ==> ValidFields(FieldsOf(store[i]))
  }

  /** Submit, edit and delete keep every stored record valid; read, search
      and ping do not change the store. */
  lemma HandlersKeepStoreValid(
    store: seq<Submission>, index: Option<int>, f: Fields,
    id: string, createdAt: Time, updatedAt: Time, now: Time)
    requires StoreValid(store)
    ensures StoreValid(Submit(store, f, id, createdAt, updatedAt).store)
    ensures StoreValid(Edit(store, index, f, now).store)
    ensures StoreValid(Delete(store, index).store)
  {
    var e := Edit(store, index, f, now);
    if Validate(f).None? && InRange(index, |store|) {
      forall i | 0 <= i < |e.store| ensures ValidFields(FieldsOf(e.store[i])) {
        if i != index.value { assert e.store[i] == store[i]; }
      }
    }
    var d := Delete(store, index);
    if InRange(index, |store|) {
      forall i | 0 <= i < |d.store| ensures ValidFields(FieldsOf(d.store[i])) {
        if i < index.value { assert d.store[i] == store[i]; }
        else { assert d.store[i] == store[i + 1]; }
      }
    }
  }

  // ---------------------------------------------------------------------
  // Ids
  // ---------------------------------------------------------------------

  /** A fresh id keeps the ids distinct after a submit, and edit and delete
      never make two records share an id. */
  lemma HandlersKeepIdsDistinct(
    store: seq<Submission>, index: Option<int>, f: Fields,
    id: string, createdAt: Time, updatedAt: Time, now: Time)
    requires DistinctIds(store)
    requires FreshId(store, id)
    ensures DistinctIds(Submit(store, f, id, createdAt, updatedAt).store)
    ensures DistinctIds(Edit(store, index, f, now).store)
    ensures DistinctIds(Delete(store, index).store)
  {
    var sub := Submit(store, f, id, createdAt, updatedAt);
    if Validate(f).None? {
      forall i, j | 0 <= i < j < |sub.store| ensures sub.store[i].id != sub.store[j].id {
        assert sub.store[i] == store[i];
        if j < |store| {
          assert sub.store[j] == store[j];
        }
      }
    }
    var e := Edit(store, index, f, now);
    if Validate(f).None? && InRange(index, |store|) {
      forall i | 0 <= i < |e.store| ensures e.store[i].id == store[i].id {
        if i != index.value { assert e.store[i] == store[i]; }
      }
    }
    var d := Delete(store, index);
    if InRange(index, |store|) {
      var k := index.value;
      forall i, j | 0 <= i < j < |d.store| ensures d.store[i].id != d.store[j].id {
        var i' := if i < k then i else i + 1;
        var j' := if j < k then j else j + 1;
        assert d.store[i] == store[i'] && d.store[j] == store[j'];
      }
    }
  }

  // ---------------------------------------------------------------------
  // Submit, read and delete together
  // ---------------------------------------------------------------------

  /** After a successful submit, reading the index the client would send
      for the old length (its decimal text) returns the new record. */
  lemma SubmitThenRead(store: seq<Submission>, f: Fields, id: string, createdAt: Time, updatedAt: Time)
    requires ValidFields(f)
    ensures Read(Submit(store, f, id, createdAt, updatedAt).store, ParseInt(ShowInt(|store|))).response
            == Found(NewRecord(f, id, createdAt, updatedAt))
  {
    var s := Submit(store, f, id, createdAt, updatedAt).store;
    var k := ParseInt(ShowInt(|store|));
    ParseShowIntExact(|store|);
    assert k == Some(|store|);
    assert s[|store|] == NewRecord(f, id, createdAt, updatedAt);
  }

  /** Deleting the last position right after a successful submit removes
      the new record and restores the store. */
  lemma SubmitThenDeleteRestores(store: seq<Submission>, f: Fields, id: string, createdAt: Time, updatedAt: Time)
    requires ValidFields(f)
    ensures Delete(Submit(store, f, id, createdAt, updatedAt).store, Some(|store|))
            == Step(Deleted(NewRecord(f, id, createdAt, updatedAt)), store)
  {
    var s := Submit(store, f, id, createdAt, updatedAt).store;
    assert s[..|store|] + s[|store| + 1..] == store;
  }

  /** Putting the deleted record back at its position rebuilds the store. */
  lemma DeleteThenReinsert(store: seq<Submission>, i: int)
    requires 0 <= i < |store|
    ensures var t := Delete(store, Some(i)).store;
            t[..i] + [store[i]] + t[i..] == store
  {
    var t := Delete(store, Some(i)).store;
    assert t[..i] == store[..i];
    assert t[i..] == store[i + 1..];
    assert store == store[..i] + [store[i]] + store[i + 1..];
  }

  /** After a delete at `i`, reading any later position gives what the
      next position held before, and the old last position is gone. */
  lemma DeleteShiftsReads(store: seq<Submission>, i: int, j: int)
    requires 0 <= i < |store|
    ensures i <= j < |store| - 1 ==>
              Read(Delete(store, Some(i)).store, Some(j)).response == Read(store, Some(j + 1)).response
    ensures 0 <= j < i ==>
              Read(Delete(store, Some(i)).store, Some(j)).response == Read(store, Some(j)).response
    ensures Read(Delete(store, Some(i)).store, Some(|store| - 1)).response == NotFound
  {
  }

  // ---------------------------------------------------------------------
  // Edit
  // ---------------------------------------------------------------------

  /** Reading an edited position returns the edited record; every other
      position reads as before. */
  lemma EditThenRead(store: seq<Submission>, i: int, j: int, f: Fields, now: Time)
    requires ValidFields(f)
    requires 0 <= i < |store|
    ensures Read(Edit(store, Some(i), f, now).store, Some(i)).response
            == Found(Submission(store[i].id, f.name, f.email, f.phone, f.githubLink,
                                f.stopwatchTime, store[i].createdAt, now))
    ensures j != i ==> Read(Edit(store, Some(i), f, now).store, Some(j)).response
                       == Read(store, Some(j)).response
  {
  }

  /** Repeating an edit with the same fields and time changes nothing
      more. */
  lemma EditIdempotent(store: seq<Submission>, index: Option<int>, f: Fields, now: Time)
    ensures var once := Edit(store, index, f, now);
            Edit(once.store, index, f, now) == once
  {
    var once := Edit(store, index, f, now);
    if Validate(f).None? && InRange(index, |store|) {
      var i := index.value;
      assert once.store[i := once.store[i]] == once.store;
    }
  }

  // ---------------------------------------------------------------------
  // Search
  // ---------------------------------------------------------------------

  /** `res` lists the records of `store` at the positions `idxs`. */
  ghost predicate ListsAt(store: seq<Submission>, idxs: seq<int>, res: seq<Submission>) {
    && |idxs| == |res|
    && forall k :: 0 <= k < |idxs| ==> 0 <= idxs[k] < |store| && res[k] == store[idxs[k]]
  }

  /** The positions are strictly increasing: store order is kept. */
  ghost predicate Increasing(idxs: seq<int>) {
    forall k, l :: 0 <= k < l < |idxs| ==> idxs[k] < idxs[l]
  }

  /** The positions listed are exactly those whose email is `q`. */
  ghost predicate ExactlyMatching(store: seq<Submission>, q: string, idxs: seq<int>) {
    forall i :: 0 <= i < |store| ==> (store[i].email == q <==> i in idxs)
  }

  /** `res` lists, in store order, exactly the records whose email is `q`. */
  ghost predicate Selects(store: seq<Submission>, q: string, idxs: seq<int>, res: seq<Submission>) {
    ListsAt(store, idxs, res) && Increasing(idxs) && ExactlyMatching(store, q, idxs)
  }

  /** Every position moved by `d`. */
  function Shift(idxs: seq<int>, d: int): seq<int> {
    seq(|idxs|, k requires 0 <= k < |idxs| => idxs[k] + d)
  }

  /** The positions of `Head(store, q)` followed by those of a tail
      selection, seen from the whole store. */
  function ConsPositions(store: seq<Submission>, q: string, tailIdxs: seq<int>): seq<int>
    requires |store| > 0
  {
    (if store[0].email == q then [0] else []) + Shift(tailIdxs, 1)
  }

  /** The first record, if it matches. */
  function Head(store: seq<Submission>, q: string): seq<Submission>
    requires |store| > 0
  {
    if store[0].email == q then [store[0]] else []
  }

  /** The positions of the records whose email is `q`, in order. */
  function Positions(store: seq<Submission>, q: string): seq<int> {
    if |store| == 0 then [] else ConsPositions(store, q, Positions(store[1..], q))
  }

  /** Listing a tail selection after the first record, when it matches. */
  lemma ConsListsAt(store: seq<Submission>, q: string, p: seq<int>, r: seq<Submission>)
    requires |store| > 0 && ListsAt(store[1..], p, r)
    ensures ListsAt(store, ConsPositions(store, q, p), Head(store, q) + r)
  {
    var idxs, res, h := ConsPositions(store, q, p), Head(store, q) + r, |Head(store, q)|;
    forall k | 0 <= k < |idxs| ensures 0 <= idxs[k] < |store| && res[k] == store[idxs[k]] {
      if k >= h {
        assert idxs[k] == p[k - h] + 1 && res[k] == r[k - h];
      }
    }
  }

  /** Positions stay increasing when the first one is put in front. */
  lemma ConsIncreasing(store: seq<Submission>, q: string, p: seq<int>)
    requires |store| > 0 && Increasing(p)
    requires forall k :: 0 <= k < |p| ==> 0 <= p[k]
    ensures Increasing(ConsPositions(store, q, p))
  {
    var idxs, h := ConsPositions(store, q, p), |Head(store, q)|;
    forall k, l | 0 <= k < l < |idxs| ensures idxs[k] < idxs[l] {
      assert idxs[l] == p[l - h] + 1;
      if k >= h { assert idxs[k] == p[k - h] + 1; }
    }
  }

  /** The first position is listed exactly when the first record
      matches. */
  lemma ConsMatchesFirst(store: seq<Submission>, q: string, p: seq<int>)
    requires |store| > 0
    requires forall k :: 0 <= k < |p| ==> 0 <= p[k]
    ensures store[0].email == q <==> 0 in ConsPositions(store, q, p)
  {
    var idxs, sh := ConsPositions(store, q, p), Shift(p, 1);
    if store[0].email == q {
      assert idxs[0] == 0;
    } else {
      assert idxs == sh;
      forall k | 0 <= k < |sh| ensures sh[k] != 0 { assert sh[k] == p[k] + 1; }
    }
  }

  /** A later position is listed exactly when the tail lists it one lower. */
  lemma ConsMatchesLater(store: seq<Submission>, q: string, p: seq<int>, i: int)
    requires 0 < i < |store|
    ensures i - 1 in p <==> i in ConsPositions(store, q, p)
  {
    var idxs, h := ConsPositions(store, q, p), |Head(store, q)|;
    if i - 1 in p {
      var m :| 0 <= m < |p| && p[m] == i - 1;
      assert idxs[h + m] == i;
    }
    if i in idxs {
      var k :| 0 <= k < |idxs| && idxs[k] == i;
      assert p[k - h] == i - 1;
    }
  }

  /** The matching positions of the whole store from those of its tail. */
  lemma ConsExactlyMatching(store: seq<Submission>, q: string, p: seq<int>)
    requires |store| > 0 && ExactlyMatching(store[1..], q, p)
    requires forall k :: 0 <= k < |p| ==> 0 <= p[k]
    ensures ExactlyMatching(store, q, ConsPositions(store, q, p))
  {
    var idxs := ConsPositions(store, q, p);
    forall i | 0 <= i < |store| ensures store[i].email == q <==> i in idxs {
      if i == 0 {
        ConsMatchesFirst(store, q, p);
      } else {
        assert store[i] == store[1..][i - 1];
        ConsMatchesLater(store, q, p, i);
      }
    }
  }

  /** The filter selects the records at the matching positions. */
  lemma {:induction false} FilterSelects(store: seq<Submission>, q: string)
    ensures Selects(store, q, Positions(store, q), Filter(store, q))
    ensures forall k :: 0 <= k < |Positions(store, q)| ==> 0 <= Positions(store, q)[k]
    decreases |store|
  {
    if |store| > 0 {
      var p, r := Positions(store[1..], q), Filter(store[1..], q);
      FilterSelects(store[1..], q);
      assert Filter(store, q) == Head(store, q) + r;
      ConsListsAt(store, q, p, r);
      ConsIncreasing(store, q, p);
      ConsExactlyMatching(store, q, p);
    }
  }

  /** Search returns an order-preserving selection of exactly the records
      whose email equals the query. */
  lemma SearchSelectsMatches(store: seq<Submission>, q: string)
    ensures exists idxs :: Selects(store, q, idxs, Search(store, Some(q)).response.submissions)
  {
    FilterSelects(store, q);
    assert Search(store, Some(q)).response.submissions == Filter(store, q);
  }

  /** Where the first record sits in a selection from the whole store: in
      front when it matches, nowhere otherwise. */
  lemma SelectsFront(store: seq<Submission>, q: string, idxs: seq<int>, res: seq<Submission>)
    requires |store| > 0 && Selects(store, q, idxs, res)
    ensures store[0].email == q ==> |idxs| > 0 && idxs[0] == 0 && res[0] == store[0]
    ensures store[0].email != q ==> forall k :: 0 <= k < |idxs| ==> idxs[k] != 0
  {
    if store[0].email == q {
      assert 0 in idxs;
      var k0 :| 0 <= k0 < |idxs| && idxs[k0] == 0;
      assert forall k :: 0 < k < |idxs| ==> idxs[0] < idxs[k];
      assert k0 == 0;
    } else {
      assert 0 !in idxs;
      forall k | 0 <= k < |idxs| ensures idxs[k] != 0 {
        assert idxs[k] in idxs;
      }
    }
  }

  /** A listing from the whole store, past its front, seen from the tail. */
  lemma TailListsAt(store: seq<Submission>, h: nat, idxs: seq<int>, res: seq<Submission>)
    requires |store| > 0 && ListsAt(store, idxs, res) && h <= |idxs|
    requires forall k :: h <= k < |idxs| ==> idxs[k] != 0
    ensures ListsAt(store[1..], Shift(idxs[h..], -1), res[h..])
  {
    var idxs', res' := Shift(idxs[h..], -1), res[h..];
    forall k | 0 <= k < |idxs'| ensures 0 <= idxs'[k] < |store| - 1 && res'[k] == store[1..][idxs'[k]] {
      assert idxs'[k] == idxs[k + h] - 1 && res'[k] == res[k + h];
    }
  }

  /** Dropping a front and shifting keeps positions increasing. */
  lemma TailIncreasing(h: nat, idxs: seq<int>)
    requires Increasing(idxs) && h <= |idxs|
    ensures Increasing(Shift(idxs[h..], -1))
  {
    var idxs' := Shift(idxs[h..], -1);
    forall k, l | 0 <= k < l < |idxs'| ensures idxs'[k] < idxs'[l] {
      assert idxs[k + h] < idxs[l + h];
    }
  }

  /** The matching positions of the tail from those of the whole store. */
  lemma TailExactlyMatching(store: seq<Submission>, q: string, h: nat, idxs: seq<int>)
    requires |store| > 0 && ExactlyMatching(store, q, idxs) && h <= |idxs|
    requires forall k :: 0 <= k < h ==> idxs[k] == 0
    ensures ExactlyMatching(store[1..], q, Shift(idxs[h..], -1))
  {
    var tail, idxs' := store[1..], Shift(idxs[h..], -1);
    forall i | 0 <= i < |tail| ensures tail[i].email == q <==> i in idxs' {
      assert tail[i] == store[i + 1];
      if i + 1 in idxs {
        var k :| 0 <= k < |idxs| && idxs[k] == i + 1;
        assert k >= h && idxs'[k - h] == i;
      }
      if i in idxs' {
        var k :| 0 <= k < |idxs'| && idxs'[k] == i;
        assert idxs[k + h] == i + 1;
      }
    }
  }

  /** A selection from the whole store, seen from its tail. */
  lemma SelectsTail(store: seq<Submission>, q: string, idxs: seq<int>, res: seq<Submission>)
    requires |store| > 0 && Selects(store, q, idxs, res)
    ensures |res| >= |Head(store, q)| && res[..|Head(store, q)|] == Head(store, q)
    ensures Selects(store[1..], q, Shift(idxs[|Head(store, q)|..], -1), res[|Head(store, q)|..])
  {
    var h := |Head(store, q)|;
    SelectsFront(store, q, idxs, res);
    if h == 1 {
      forall k | 1 <= k < |idxs| ensures idxs[k] != 0 { assert idxs[0] < idxs[k]; }
    }
    TailListsAt(store, h, idxs, res);
    TailIncreasing(h, idxs);
    TailExactlyMatching(store, q, h, idxs);
  }

  /** The filter of a non-empty store: its first record if it matches, then
      the filter of the rest. */
  lemma FilterUnfold(store: seq<Submission>, q: string)
    requires |store| > 0
    ensures Filter(store, q) == Head(store, q) + Filter(store[1..], q)
  {
  }

  /** Strictly increasing positions below `n` number at most `n`. */
  lemma {:induction false} IncreasingBounded(idxs: seq<int>, n: nat)
    requires Increasing(idxs)
    requires forall k :: 0 <= k < |idxs| ==> 0 <= idxs[k] < n
    ensures |idxs| <= n
    decreases |idxs|
  {
    if |idxs| > 0 {
      var last := idxs[|idxs| - 1];
      var front := idxs[..|idxs| - 1];
      assert forall k :: 0 <= k < |front| ==> front[k] == idxs[k] < last;
      assert Increasing(front) by {
        assert forall k :: 0 <= k < |front| ==> front[k] == idxs[k];
      }
      IncreasingBounded(front, last);
      assert last < n;
    }
  }

  /** A list that starts with the filter's first part and continues with
      the filter of the tail is the filter. */
  lemma FilterFromTail(store: seq<Submission>, q: string, res: seq<Submission>)
    requires |store| > 0 && |res| >= |Head(store, q)|
    requires res[..|Head(store, q)|] == Head(store, q)
    requires res[|Head(store, q)|..] == Filter(store[1..], q)
    ensures res == Filter(store, q)
  {
    var h := |Head(store, q)|;
    FilterUnfold(store, q);
    assert res == res[..h] + res[h..];
  }

  /** Only the filter's result is such a selection: the search answer is
      the one and only order-preserving list of the matching records. */
  lemma {:induction false} SelectionIsFilter(store: seq<Submission>, q: string, idxs: seq<int>, res: seq<Submission>)
    requires Selects(store, q, idxs, res)
    ensures res == Filter(store, q)
    decreases |store|
  {
    if |store| == 0 {
      IncreasingBounded(idxs, 0);
    } else {
      var h := |Head(store, q)|;
      SelectsTail(store, q, idxs, res);
      SelectionIsFilter(store[1..], q, Shift(idxs[h..], -1), res[h..]);
      FilterFromTail(store, q, res);
    }
  }

  /** Filtering a store with one more record at the end. */
  lemma {:induction false} FilterAppend(store: seq<Submission>, x: Submission, q: string)
    ensures Filter(store + [x], q) == Filter(store, q) + (if x.email == q then [x] else [])
    decreases |store|
  {
    var s := store + [x];
    FilterUnfold(s, q);
    if |store| == 0 {
      assert s[1..] == [];
    } else {
      assert s[0] == store[0] && s[1..] == store[1..] + [x];
      FilterAppend(store[1..], x, q);
      FilterUnfold(store, q);
    }
  }

  /** A successful submit adds the new record, last, to the search results
      for its own email and leaves those for any other email unchanged. */
  lemma SearchAfterSubmit(store: seq<Submission>, f: Fields, id: string, createdAt: Time, updatedAt: Time, q: string)
    requires ValidFields(f)
    ensures var x := NewRecord(f, id, createdAt, updatedAt);
            Search(Submit(store, f, id, createdAt, updatedAt).store, Some(q)).response.submissions
            == Search(store, Some(q)).response.submissions + (if q == f.email then [x] else [])
  {
    FilterAppend(store, NewRecord(f, id, createdAt, updatedAt), q);
  }

  /** No record with the queried email, or no query at all, gives an empty
      answer with count zero. */
  lemma {:induction false} SearchNoMatch(store: seq<Submission>, query: Option<string>)
    requires query.Some? ==> forall i :: 0 <= i < |store| ==> store[i].email != query.value
    ensures Search(store, query).response == Matches([], 0)
    decreases |store|
  {
    if query.Some? && |store| > 0 {
      SearchNoMatch(store[1..], query);
    }
  }
}
