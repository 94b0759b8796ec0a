/**
 * The query engine of Entity.java (`findAll`, `find`, `checkIdUnique`) over a
 * type's cached list.  A record is matched on the text its `toHashMap` holds
 * under a key, lower-cased, against the lower-cased search text.  Looking up
 * a key the type does not have throws in the source; here it is an error
 * result.
 */
module Query {
  import opened Options
  import opened Text
  import opened Entities
  import opened FlatFile

  datatype QueryError = OddArguments | MissingField(key: string)

  /** A cached object together with the field map its `toHashMap` gives at query time. */
  datatype Row = Row(rec: Record, fields: FieldMap)

  /** The comparison of `findAll`: equal ignoring case, or (partial match) containing the text. */
  predicate FieldMatches(value: string, content: string, matchAll: bool) {
    Lower(value) == Lower(content) || (!matchAll && Contains(Lower(value), Lower(content)))
  }

  /** The record has a value under the key. */
  predicate HasField(row: Row, key: string) {
    Get(row.fields, key).Some?
  }

  /** The record has a value under the key and that value matches. */
  predicate Selects(row: Row, key: string, content: string, matchAll: bool) {
    HasField(row, key) && FieldMatches(Get(row.fields, key).value, content, matchAll)
  }

  /** One test of the inner loop. */
  function Test(row: Row, key: string, content: string, matchAll: bool): (r: Result<bool, QueryError>)
    ensures r.Ok? <==> HasField(row, key)
    ensures r.Ok? ==> (r.value <==> Selects(row, key, content, matchAll))
    ensures r.Err? ==> r.error == MissingField(key)
  {
    match Get(row.fields, key)
    case None => Err(MissingField(key))
    case Some(v) => Ok(FieldMatches(v, content, matchAll))
  }

  /** The inner loop run to the end: the records that pass, in list order. */
  function Filter(list: seq<Row>, key: string, content: string, matchAll: bool): (r: Result<seq<Row>, QueryError>)
    ensures r.Ok? ==> |r.value| <= |list|
    ensures r.Err? ==> r.error == MissingField(key)
    decreases |list|
  {
    if |list| == 0 then Ok([])
    else
      match Test(list[0], key, content, matchAll)
      case Err(e) => Err(e)
      case Ok(pass) =>
        match Filter(list[1..], key, content, matchAll)
        case Err(e) => Err(e)
        case Ok(rest) => Ok(if pass then [list[0]] + rest else rest)
  }

  /**
   * One pass of the outer loop.  The inner loop stops after its first record
   * when the list entering the pass is exactly as long as the limit.
   */
  function Pass(list: seq<Row>, key: string, content: string, matchAll: bool, limit: int)
    : (r: Result<seq<Row>, QueryError>)
    ensures limit != -1 && |list| == limit && |list| > 0 && r.Ok? ==> r.value == [] || r.value == [list[0]]
    ensures r.Err? ==> r.error == MissingField(key)
  {
    if limit != -1 && |list| == limit && |list| > 0 then
      match Test(list[0], key, content, matchAll)
      case Err(e) => Err(e)
      case Ok(pass) => Ok(if pass then [list[0]] else [])
    else
      Filter(list, key, content, matchAll)
  }

  /** The passes over the (key, text) pairs, left to right, each on the previous one's result. */
  function Passes(list: seq<Row>, args: seq<string>, matchAll: bool, limit: int)
    : (r: Result<seq<Row>, QueryError>)
    requires |args| % 2 == 0
    ensures r.Err? ==> r.error.MissingField?
    decreases |args|
  {
    if |args| == 0 then Ok(list)
    else
      match Pass(list, args[0], args[1], matchAll, limit)
      case Err(e) => Err(e)
      case Ok(next) => Passes(next, args[2..], matchAll, limit)
  }

  /** `findAll(matchAll, results, args...)` on a type's list. */
  function FindAll(list: seq<Row>, matchAll: bool, limit: int, args: seq<string>)
    : (r: Result<seq<Row>, QueryError>)
    ensures |args| % 2 != 0 <==> r == Err(OddArguments)
  {
    if |args| % 2 != 0 then Err(OddArguments) else Passes(list, args, matchAll, limit)
  }

  /** `find`: element 0 of `findAll(matchAll, 1, args...)`, and null on any failure. */
  function Find(list: seq<Row>, matchAll: bool, args: seq<string>): Option<Row> {
    match FindAll(list, matchAll, 1, args)
    case Ok(found) => if |found| > 0 then Some(found[0]) else None
    case Err(_) => None
  }

  /** `checkIdUnique`: every exact match of the text is this very object. */
  function CheckIdUnique(list: seq<Row>, self: nat, key: string, text: string)
    : Result<bool, QueryError>
  {
    match FindAll(list, true, -1, [key, text])
    case Err(e) => Err(e)
    case Ok(found) => Ok(forall i :: 0 <= i < |found| ==> found[i].rec.handle == self)
  }

  // ---------------------------------------------------------------------------
  // What a filter keeps
  // ---------------------------------------------------------------------------

  /** The inner loop on a record followed by more records. */
  lemma FilterCons(row: Row, rest: seq<Row>, key: string, content: string, matchAll: bool)
    ensures Filter([row] + rest, key, content, matchAll) ==
      match Test(row, key, content, matchAll)
      case Err(e) => Err(e)
      case Ok(pass) =>
        match Filter(rest, key, content, matchAll)
        case Err(e) => Err(e)
        case Ok(kept) => Ok(if pass then [row] + kept else kept)
  {
    assert ([row] + rest)[0] == row && ([row] + rest)[1..] == rest;
  }

  /** A filter fails only on a record without the key, and keeps exactly the records it selects. */
  lemma {:induction false} FilterKeeps(list: seq<Row>, key: string, content: string, matchAll: bool)
    ensures Filter(list, key, content, matchAll).Ok? <==> forall i :: 0 <= i < |list| ==> HasField(list[i], key)
    ensures Filter(list, key, content, matchAll).Ok? ==> forall row ::
      row in Filter(list, key, content, matchAll).value <==> row in list && Selects(row, key, content, matchAll)
    decreases |list|
  {
    if |list| > 0 {
      FilterKeeps(list[1..], key, content, matchAll);
      if forall i :: 0 <= i < |list[1..]| ==> HasField(list[1..][i], key) {
        assert forall row :: row in list <==> row == list[0] || row in list[1..];
      } else {
        var i :| 0 <= i < |list[1..]| && !HasField(list[1..][i], key);
        assert list[1..][i] == list[i + 1];
      }
    }
  }

  /** The first record of the list that the test selects. */
  function FirstSelected(list: seq<Row>, key: string, content: string, matchAll: bool): Option<Row>
    decreases |list|
  {
    if |list| == 0 then None
    else if Selects(list[0], key, content, matchAll) then Some(list[0])
    else FirstSelected(list[1..], key, content, matchAll)
  }

  /** The first record a filter keeps is the first record of the list it selects. */
  lemma {:induction false} FilterFirst(list: seq<Row>, key: string, content: string, matchAll: bool)
    requires Filter(list, key, content, matchAll).Ok?
    ensures var found := Filter(list, key, content, matchAll).value;
      FirstSelected(list, key, content, matchAll) == if |found| > 0 then Some(found[0]) else None
    decreases |list|
  {
    if |list| > 0 {
      FilterFirst(list[1..], key, content, matchAll);
    }
  }

  /** An empty text under partial match keeps every record that has the key. */
  lemma {:induction false} EmptyPartialKeepsAll(list: seq<Row>, key: string)
    requires forall i :: 0 <= i < |list| ==> HasField(list[i], key)
    ensures Filter(list, key, "", false) == Ok(list)
    decreases |list|
  {
    if |list| > 0 {
      ContainsEmpty(Lower(Get(list[0].fields, key).value));
      assert Lower("") == "";
      EmptyPartialKeepsAll(list[1..], key);
      assert list == [list[0]] + list[1..];
    }
  }

  // ---------------------------------------------------------------------------
  // The limit
  // ---------------------------------------------------------------------------

  /** A limit of one never cuts a pass short: a one-record list has nothing after its first record. */
  lemma LimitOnePass(list: seq<Row>, key: string, content: string, matchAll: bool)
    ensures Pass(list, key, content, matchAll, 1) == Pass(list, key, content, matchAll, -1)
  {
    if |list| == 1 {
      assert Filter(list[1..], key, content, matchAll) == Ok([]);
      assert [list[0]] + [] == [list[0]];
    }
  }

  /** So `find`, which asks for one result, sees the same matches as an unlimited `findAll`. */
  lemma {:induction false} LimitOneUnlimited(list: seq<Row>, args: seq<string>, matchAll: bool)
    requires |args| % 2 == 0
    ensures Passes(list, args, matchAll, 1) == Passes(list, args, matchAll, -1)
    decreases |args|
  {
    if |args| > 0 {
      LimitOnePass(list, args[0], args[1], matchAll);
      match Pass(list, args[0], args[1], matchAll, -1)
      case Err(_) =>
      case Ok(next) => LimitOneUnlimited(next, args[2..], matchAll);
    }
  }

  /**
   * A list exactly as long as the limit: only its first record is compared, so
   * a later matching record is dropped.
   */
  lemma LimitSkipsLater(list: seq<Row>, key: string, content: string, matchAll: bool)
    requires |list| >= 2 && HasField(list[0], key)
    requires !Selects(list[0], key, content, matchAll) && Selects(list[1], key, content, matchAll)
    ensures Pass(list, key, content, matchAll, |list|) == Ok([])
    ensures Pass(list, key, content, matchAll, -1).Ok? ==> list[1] in Pass(list, key, content, matchAll, -1).value
  {
    FilterKeeps(list, key, content, matchAll);
  }

  // ---------------------------------------------------------------------------
  // Several pairs
  // ---------------------------------------------------------------------------

  /** The record has a value under the key of every pair. */
  predicate HasAll(row: Row, args: seq<string>)
    decreases |args|
  {
    |args| < 2 || (HasField(row, args[0]) && HasAll(row, args[2..]))
  }

  /** The record passes every (key, text) pair. */
  predicate SelectsAll(row: Row, args: seq<string>, matchAll: bool)
    decreases |args|
  {
    |args| < 2 || (Selects(row, args[0], args[1], matchAll) && SelectsAll(row, args[2..], matchAll))
  }

  /** Two pairs: the record has both keys, and passes both pairs. */
  lemma TwoPairs(row: Row, k1: string, t1: string, k2: string, t2: string, matchAll: bool)
    ensures HasAll(row, [k1, t1, k2, t2]) <==> HasField(row, k1) && HasField(row, k2)
    ensures SelectsAll(row, [k1, t1, k2, t2], matchAll) <==> Selects(row, k1, t1, matchAll) && Selects(row, k2, t2, matchAll)
  {
    var args := [k1, t1, k2, t2];
    var rest := [k2, t2];
    assert args[2..] == rest && rest[2..] == [];
    assert HasAll(row, args) <==> HasField(row, k1) && HasAll(row, rest);
    assert HasAll(row, rest) <==> HasField(row, k2);
    assert SelectsAll(row, args, matchAll) <==> Selects(row, k1, t1, matchAll) && SelectsAll(row, rest, matchAll);
    assert SelectsAll(row, rest, matchAll) <==> Selects(row, k2, t2, matchAll);
  }

  /**
   * Without a limit, when every record has the keys, `findAll` keeps exactly
   * the records that pass every pair: the pairs are ANDed.
   */
  lemma {:induction false} FindAllConjunction(list: seq<Row>, args: seq<string>, matchAll: bool)
    requires |args| % 2 == 0
    requires forall i :: 0 <= i < |list| ==> HasAll(list[i], args)
    ensures FindAll(list, matchAll, -1, args).Ok?
    ensures forall row :: row in FindAll(list, matchAll, -1, args).value <==>
      row in list && SelectsAll(row, args, matchAll)
    decreases |args|
  {
    if |args| > 0 {
      FilterKeeps(list, args[0], args[1], matchAll);
      var next := Filter(list, args[0], args[1], matchAll).value;
      forall i | 0 <= i < |next| ensures HasAll(next[i], args[2..]) {
        assert next[i] in list;
      }
      FindAllConjunction(next, args[2..], matchAll);
    }
  }

  /** With no pairs `findAll` returns the whole list, in cache order, whatever the limit. */
  lemma FindAllNoPairs(list: seq<Row>, matchAll: bool, limit: int)
    ensures FindAll(list, matchAll, limit, []) == Ok(list)
  {
  }

  /** `find(key, text)` is the first record of the list whose field matches the text exactly, ignoring case. */
  lemma FindFirst(list: seq<Row>, key: string, content: string)
    requires forall i :: 0 <= i < |list| ==> HasField(list[i], key)
    ensures Find(list, true, [key, content]) == FirstSelected(list, key, content, true)
  {
    LimitOneUnlimited(list, [key, content], true);
    FilterKeeps(list, key, content, true);
    FilterFirst(list, key, content, true);
    assert [key, content][2..] == [];
  }

  /** A list with exactly the selected records of `list` has only the handle `h` iff every selected record has it. */
  lemma HandlesOfSelected(list: seq<Row>, found: seq<Row>, key: string, text: string, h: nat)
    requires forall row :: row in found <==> row in list && Selects(row, key, text, true)
    ensures (forall i :: 0 <= i < |found| ==> found[i].rec.handle == h) <==>
      (forall i :: 0 <= i < |list| && Selects(list[i], key, text, true) ==> list[i].rec.handle == h)
  {
    if forall i :: 0 <= i < |found| ==> found[i].rec.handle == h {
      forall i | 0 <= i < |list| && Selects(list[i], key, text, true) ensures list[i].rec.handle == h {
        assert list[i] in found;
      }
    }
    if forall i :: 0 <= i < |list| && Selects(list[i], key, text, true) ==> list[i].rec.handle == h {
      forall i | 0 <= i < |found| ensures found[i].rec.handle == h {
        assert found[i] in found;
        var k :| 0 <= k < |list| && list[k] == found[i];
      }
    }
  }

  /**
   * `checkIdUnique` holds exactly when every record whose field equals the
   * text, ignoring case, is this object; so an object not in the list is
   * unique exactly when no record matches.
   */
  lemma CheckIdUniqueIff(list: seq<Row>, self: nat, key: string, text: string)
    requires forall i :: 0 <= i < |list| ==> HasField(list[i], key)
    ensures CheckIdUnique(list, self, key, text).Ok?
    ensures CheckIdUnique(list, self, key, text).value <==>
      forall i :: 0 <= i < |list| && Selects(list[i], key, text, true) ==> list[i].rec.handle == self
  {
    FilterKeeps(list, key, text, true);
    assert [key, text][2..] == [];
    var found := Filter(list, key, text, true).value;
    assert Passes(found, [key, text][2..], true, -1) == Ok(found);
    assert FindAll(list, true, -1, [key, text]) == Ok(found);
    HandlesOfSelected(list, found, key, text, self);
  }
}
