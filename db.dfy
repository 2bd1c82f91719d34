/** queryMysql in cappylib/db.py: validates the db argument, expands every list-valued input into
    one numbered input per element (rewriting the query's anchor for it), hands the query and the
    inputs to the MySQL cursor and turns the cursor's rows into dicts keyed by column name. The
    database itself is outside the model: the cursor's column names and rows are parameters, and
    the query and inputs sent to it are an output. */
module Db {
  import opened Wrappers
  import opened Strings
  import General

  /** The Python values an input can hold. */
  datatype Value =
    | VNone
    | VBool(b: bool)
    | VInt(i: int)
    | VStr(s: string)
    | VList(items: seq<Value>)
    | VOther

  /** Python truthiness of a value. */
  predicate Truthy(v: Value)
  {
    match v
    case VNone => false
    case VBool(b) => b
    case VInt(i) => i != 0
    case VStr(s) => s != ""
    case VList(items) => items != []
    case VOther => true
  }

  type Inputs = map<string, Value>

  /** The db argument: a dict of connection parameters, an open MySQLConnection, or anything
      else. */
  datatype DbArg = DictArg(params: map<string, string>) | Connection | OtherDb

  /** Debug output is on iff '__debug' is an input and its value is truthy. */
  predicate DebugOn(inputs: Inputs)
  {
    "__debug" in inputs && Truthy(inputs["__debug"])
  }

  /** The message of the error raised for a db argument of the wrong type. */
  function InvalidDbMessage(): string
  {
    General.ErrorMessage("queryMysql", "error", ["db arg is an invalid type"])
  }

  // ---------------------------------------------------------------------------------------------
  // list expansion

  /** The query's placeholder for key k: '%(k)s'. */
  function Anchor(k: string): (a: string)
    ensures |a| == |k| + 4
  {
    "%(" + k + ")s"
  }

  /** The generated key for element i of the list under k: '__{k}{i}'. */
  function Key(k: string, i: nat): (key: string)
    ensures |key| > |k| + 2
  {
    "__" + k + NatToString(i)
  }

  /** The generated keys for a list of n elements, in order. */
  function NewKeys(k: string, n: nat): (keys: seq<string>)
    ensures |keys| == n && forall i :: 0 <= i < n ==> keys[i] == Key(k, i)
  {
    seq(n, i requires 0 <= i => Key(k, i))
  }

  /** `dict([(newKeys[i], items[i]) for i in range(n)])`, built pair by pair. */
  function NewEntries(k: string, items: seq<Value>): Inputs
    decreases |items|
  {
    if items == [] then map[]
    else NewEntries(k, items[..|items| - 1])[Key(k, |items| - 1) := items[|items| - 1]]
  }

  /** The body of the loop over `inputs.keys()` for key k: an empty list becomes '', a non-empty
      list is replaced by its numbered keys and its anchor in the query by theirs, and any other
      value is left alone. */
  function ExpandStep(inputs: Inputs, query: string, k: string): (Inputs, string)
    requires k in inputs
  {
    match inputs[k]
    case VList(items) =>
      if |items| == 0 then (inputs[k := VStr("")], query)
      else ((inputs - {k}) + NewEntries(k, items),
            Replace(query, Anchor(k), Anchor(Join(")s, %(", NewKeys(k, |items|)))))
    case _ => (inputs, query)
  }

  predicate Distinct(order: seq<string>)
  {
    forall i, j :: 0 <= i < j < |order| ==> order[i] != order[j]
  }

  /** `order` lists the keys of `inputs`, each once: the snapshot `inputs.keys()` the loop walks. */
  predicate Listing(order: seq<string>, inputs: Inputs)
  {
    Distinct(order) && (forall j :: 0 <= j < |order| ==> order[j] in inputs) &&
    (forall k :: k in inputs ==> k in order)
  }

  /** The whole loop: ExpandStep for each listed key in turn. */
  function Expand(inputs: Inputs, query: string, order: seq<string>): (Inputs, string)
    requires Distinct(order) && forall j :: 0 <= j < |order| ==> order[j] in inputs
    decreases |order|
  {
    if order == [] then (inputs, query)
    else
      var step := ExpandStep(inputs, query, order[0]);
      StepKeepsOthers(inputs, query, order);
      Expand(step.0, step.1, order[1..])
  }

  /** A step only removes its own key, so the keys still to be visited are all there. */
  lemma StepKeepsOthers(inputs: Inputs, query: string, order: seq<string>)
    requires |order| > 0 && Distinct(order) && forall j :: 0 <= j < |order| ==> order[j] in inputs
    ensures var step := ExpandStep(inputs, query, order[0]);
            Distinct(order[1..]) && forall j :: 0 <= j < |order[1..]| ==> order[1..][j] in step.0
  {
    var step := ExpandStep(inputs, query, order[0]);
    forall j | 0 <= j < |order[1..]| ensures order[1..][j] in step.0 {
      assert order[1..][j] == order[j + 1] != order[0];
    }
  }

  /** The loop over the snapshot of the keys, rebinding `inputs` and `query` as it goes. */
  method PrepareInputs(inputs0: Inputs, query0: string, order: seq<string>)
    returns (inputs: Inputs, query: string)
    requires Listing(order, inputs0)
    ensures (inputs, query) == Expand(inputs0, query0, order)
  {
    ghost var total := Expand(inputs0, query0, order);
    inputs, query := inputs0, query0;
    var i := 0;
    assert order[0..] == order;
    while i < |order|
      invariant 0 <= i <= |order|
      invariant Distinct(order[i..]) && forall j :: 0 <= j < |order[i..]| ==> order[i..][j] in inputs
      invariant Expand(inputs, query, order[i..]) == total
    {
      var k := order[i];
      ghost var step := ExpandStep(inputs, query, k);
      ghost var rest, m := order[i + 1..], step.0;
      assert Expand(inputs, query, order[i..]) == Expand(m, step.1, rest) &&
             Distinct(rest) && forall j :: 0 <= j < |rest| ==> rest[j] in m by {
        StepKeepsOthers(inputs, query, order[i..]);
        assert order[i..][1..] == order[i + 1..];
      }
      if inputs[k].VList? {
        var items := inputs[k].items;
        var n := |items|;
        if n == 0 {
          inputs := inputs[k := VStr("")];
        } else {
          var newKeys := NewKeys(k, n);
          var newDict := NewEntries(k, items);
          inputs := (inputs - {k}) + newDict;
          query := Replace(query, Anchor(k), Anchor(Join(")s, %(", newKeys)));
        }
      }
      assert (inputs, query) == step;
      i := i + 1;
    }
  }

  // ---------------------------------------------------------------------------------------------
  // properties of the expansion

  /** Generated keys for the same list are distinct, and none is the list's own key. */
  lemma KeysDistinct(k: string, i: nat, j: nat)
    ensures Key(k, i) == Key(k, j) <==> i == j
    ensures Key(k, i) != k
  {
    if Key(k, i) == Key(k, j) {
      var n := |k| + 2;
      assert NatToString(i) == Key(k, i)[n..];
      assert NatToString(j) == Key(k, j)[n..];
      ParseNatToString(i);
      ParseNatToString(j);
    }
  }

  /** A generated key ends with a digit, so no list can generate the reserved key '__debug'. */
  lemma KeyIsNotDebug(k: string, i: nat)
    ensures Key(k, i) != "__debug"
  {
    var key := Key(k, i);
    var digits := NatToString(i);
    assert key[|key| - 1] == digits[|digits| - 1];
    assert IsDigit(key[|key| - 1]);
    assert !IsDigit("__debug"[6]);
  }

  /** The entries for a list map its i-th generated key to its i-th element, and have no other
      keys. */
  lemma {:induction false} NewEntriesMeaning(k: string, items: seq<Value>)
    ensures forall i :: 0 <= i < |items| ==> Key(k, i) in NewEntries(k, items) &&
                                             NewEntries(k, items)[Key(k, i)] == items[i]
    ensures forall x :: x in NewEntries(k, items) ==>
                        exists i :: 0 <= i < |items| && x == Key(k, i)
    decreases |items|
  {
    if items != [] {
      var n := |items| - 1;
      var front := items[..n];
      NewEntriesMeaning(k, front);
      forall i | 0 <= i < |items|
        ensures Key(k, i) in NewEntries(k, items) && NewEntries(k, items)[Key(k, i)] == items[i]
      {
        KeysDistinct(k, i, n);
        if i < n {
          assert front[i] == items[i];
        }
      }
    }
  }

  /** A non-empty list under k: its elements appear under the generated keys, k itself is gone,
      every other input is unchanged unless a generated key overrides it, and the query has each
      old anchor replaced by the comma-separated generated anchors. */
  lemma ExpandStepList(inputs: Inputs, query: string, k: string)
    requires k in inputs && inputs[k].VList? && |inputs[k].items| > 0
    ensures var items := inputs[k].items;
            var (m, q) := ExpandStep(inputs, query, k);
            (forall i :: 0 <= i < |items| ==> Key(k, i) in m && m[Key(k, i)] == items[i]) &&
            k !in m &&
            (forall x :: x in inputs && x != k &&
                         (forall i :: 0 <= i < |items| ==> x != Key(k, i)) ==>
                         x in m && m[x] == inputs[x]) &&
            (forall x :: x in m ==> x in inputs || exists i :: 0 <= i < |items| && x == Key(k, i)) &&
            q == Join("%(" + Join(")s, %(", NewKeys(k, |items|)) + ")s", SplitOn(query, Anchor(k)))
  {
    var items := inputs[k].items;
    NewEntriesMeaning(k, items);
    forall i | 0 <= i < |items| {
      KeysDistinct(k, i, i);
    }
    ReplaceIsJoinOfSplit(query, Anchor(k), Anchor(Join(")s, %(", NewKeys(k, |items|))));
  }

  /** An empty list under k becomes the empty string and leaves the query alone; a non-list value
      leaves both alone. */
  lemma ExpandStepOther(inputs: Inputs, query: string, k: string)
    requires k in inputs && !(inputs[k].VList? && |inputs[k].items| > 0)
    ensures var (m, q) := ExpandStep(inputs, query, k);
            q == query && m.Keys == inputs.Keys &&
            (forall x :: x in inputs && x != k ==> m[x] == inputs[x]) &&
            (inputs[k].VList? ==> m[k] == VStr("")) &&
            (!inputs[k].VList? ==> m == inputs)
  {
  }

  predicate NoLists(inputs: Inputs)
  {
    forall k :: k in inputs ==> !inputs[k].VList?
  }

  /** Without list inputs the expansion changes nothing: the inputs and query pass through. */
  lemma {:induction false} NoListsPassThrough(inputs: Inputs, query: string, order: seq<string>)
    requires Distinct(order) && forall j :: 0 <= j < |order| ==> order[j] in inputs
    requires NoLists(inputs)
    ensures Expand(inputs, query, order) == (inputs, query)
    decreases |order|
  {
    if order != [] {
      StepKeepsOthers(inputs, query, order);
      NoListsPassThrough(inputs, query, order[1..]);
    }
  }

  /** '__debug' with a non-list value reaches the cursor unchanged. */
  lemma {:induction false} DebugPassesThrough(inputs: Inputs, query: string, order: seq<string>)
    requires Distinct(order) && forall j :: 0 <= j < |order| ==> order[j] in inputs
    requires "__debug" in inputs && !inputs["__debug"].VList?
    ensures var m := Expand(inputs, query, order).0;
            "__debug" in m && m["__debug"] == inputs["__debug"]
    decreases |order|
  {
    if order != [] {
      var k := order[0];
      var step := ExpandStep(inputs, query, k);
      StepKeepsOthers(inputs, query, order);
      assert "__debug" in step.0 && step.0["__debug"] == inputs["__debug"] by {
        if inputs[k].VList? && |inputs[k].items| > 0 {
          var items := inputs[k].items;
          NewEntriesMeaning(k, items);
          forall i | 0 <= i < |items| ensures "__debug" != Key(k, i) {
            KeyIsNotDebug(k, i);
          }
          assert "__debug" != k;
        }
      }
      DebugPassesThrough(step.0, step.1, order[1..]);
    }
  }

  /** A two-element list: `IN %(a)s` with a = [1, 2] becomes `IN %(__a0)s, %(__a1)s` with the
      inputs __a0 = 1 and __a1 = 2. */
  lemma ExpandTwoElements()
    ensures Expand(map["a" := VList([VInt(1), VInt(2)])], "IN " + Anchor("a"), ["a"])
            == (map["__a0" := VInt(1), "__a1" := VInt(2)],
                "IN " + Anchor("__a0") + ", " + Anchor("__a1"))
  {
    var inputs := map["a" := VList([VInt(1), VInt(2)])];
    TwoKeys();
    TwoEntries();
    TwoAnchors();
    var step := ExpandStep(inputs, "IN " + Anchor("a"), "a");
    assert step.0 == map["__a0" := VInt(1), "__a1" := VInt(2)];
    assert step.1 == "IN " + Anchor("__a0") + ", " + Anchor("__a1");
    assert ["a"][1..] == [];
  }

  lemma TwoKeys()
    ensures NewKeys("a", 2) == ["__a0", "__a1"]
  {
    assert NatToString(0) == "0" && NatToString(1) == "1";
    assert Key("a", 0) == "__a0" && Key("a", 1) == "__a1";
  }

  lemma TwoEntries()
    ensures (map["a" := VList([VInt(1), VInt(2)])] - {"a"}) + NewEntries("a", [VInt(1), VInt(2)])
            == map["__a0" := VInt(1), "__a1" := VInt(2)]
  {
    TwoKeys();
    assert [VInt(1), VInt(2)][..1] == [VInt(1)];
    assert [VInt(1)][..0] == [];
  }

  lemma TwoAnchors()
    ensures Replace("IN " + Anchor("a"), Anchor("a"), Anchor(Join(")s, %(", ["__a0", "__a1"])))
            == "IN " + Anchor("__a0") + ", " + Anchor("__a1")
  {
    var rep := Anchor("__a0") + ", " + Anchor("__a1");
    JoinTwo();
    var p := Anchor("a");
    ReplaceHit(p, "", rep);
    assert p + "" == p;
    ReplacePrefix("IN ", p, p, rep);
  }

  lemma JoinTwo()
    ensures Anchor(Join(")s, %(", ["__a0", "__a1"])) == Anchor("__a0") + ", " + Anchor("__a1")
  {
    assert ["__a0", "__a1"][1..] == ["__a1"];
  }

  /** Replacing at a string that starts with the pattern. */
  lemma ReplaceHit(p: string, s: string, r: string)
    requires |p| > 0
    ensures Replace(p + s, p, r) == r + Replace(s, p, r)
  {
    assert (p + s)[..|p|] == p;
    assert (p + s)[|p|..] == s;
  }

  /** Replacing at a string whose first character does not start the pattern. */
  lemma ReplaceSkip(c: char, s: string, p: string, r: string)
    requires |p| > 0 && c != p[0]
    ensures Replace([c] + s, p, r) == [c] + Replace(s, p, r)
  {
    assert ([c] + s)[1..] == s;
    if |[c] + s| >= |p| {
      assert ([c] + s)[..|p|][0] == c;
    }
  }

  /** Replacing after a prefix none of whose characters starts the pattern. */
  lemma {:induction false} ReplacePrefix(pre: string, s: string, p: string, r: string)
    requires |p| > 0 && forall i :: 0 <= i < |pre| ==> pre[i] != p[0]
    ensures Replace(pre + s, p, r) == pre + Replace(s, p, r)
    decreases |pre|
  {
    if |pre| > 0 {
      ReplacePrefix(pre[1..], s, p, r);
      ReplaceSkip(pre[0], pre[1..] + s, p, r);
      assert pre + s == [pre[0]] + (pre[1..] + s);
      assert pre == [pre[0]] + pre[1..];
    } else {
      assert pre + s == s;
    }
  }

  // ---------------------------------------------------------------------------------------------
  // rows

  /** `dict(zip(columns, row))`: pairs up to the shorter of the two, a later duplicate column
      winning. */
  function ZipDict(columns: seq<string>, row: seq<Value>): map<string, Value>
    decreases |columns|
  {
    if columns == [] || row == [] then map[]
    else map[columns[0] := row[0]] + ZipDict(columns[1..], row[1..])
  }

  /** With distinct column names, each column maps to its own value and there are no other
      keys. */
  lemma {:induction false} ZipDictMeaning(columns: seq<string>, row: seq<Value>)
    requires Distinct(columns) && |row| >= |columns|
    ensures forall x :: x in ZipDict(columns, row) <==> x in columns
    ensures forall i :: 0 <= i < |columns| ==> ZipDict(columns, row)[columns[i]] == row[i]
    decreases |columns|
  {
    if columns != [] {
      var z := ZipDict(columns, row);
      var tail := columns[1..];
      var rest := ZipDict(tail, row[1..]);
      assert z == map[columns[0] := row[0]] + rest;
      DistinctTail(columns);
      ZipDictMeaning(tail, row[1..]);
      assert columns == [columns[0]] + tail;
      forall i | 0 < i < |columns| ensures z[columns[i]] == row[i] {
        assert columns[i] == tail[i - 1];
      }
    }
  }

  lemma DistinctTail(order: seq<string>)
    requires |order| > 0 && Distinct(order)
    ensures Distinct(order[1..]) && order[0] !in order[1..]
  {
    forall i, j | 0 <= i < j < |order[1..]| ensures order[1..][i] != order[1..][j] {
      assert order[1..][i] == order[i + 1] && order[1..][j] == order[j + 1];
    }
  }

  /** The rows as dicts, in cursor order. */
  function Rows(columns: seq<string>, rows: seq<seq<Value>>): (r: seq<map<string, Value>>)
    ensures |r| == |rows|
  {
    seq(|rows|, i requires 0 <= i < |rows| => ZipDict(columns, rows[i]))
  }

  /** The loop appending one dict per cursor row. */
  method BuildRows(columns: seq<string>, rows: seq<seq<Value>>)
    returns (result: seq<map<string, Value>>)
    ensures |result| == |rows|
    ensures forall i :: 0 <= i < |rows| ==> result[i] == ZipDict(columns, rows[i])
  {
    result := [];
    var i := 0;
    while i < |rows|
      invariant 0 <= i <= |rows| && |result| == i
      invariant forall j :: 0 <= j < i ==> result[j] == ZipDict(columns, rows[j])
    {
      result := result + [ZipDict(columns, rows[i])];
      i := i + 1;
    }
  }

  // ---------------------------------------------------------------------------------------------
  // queryMysql

  /** What queryMysql does to the outside world: the query and inputs it executes (None when it
      fails before connecting; inputs first), whether it closes the connection, and whether it prints the debug
      data. */
  datatype Effects = Effects(executed: Option<(Inputs, string)>, closed: bool, printed: bool)

  /** queryMysql(db, query, **inputs) against a cursor that returns `rows` under `columns`. */
  method QueryMysql(db: DbArg, query: string, inputs: Inputs, order: seq<string>,
                    columns: seq<string>, rows: seq<seq<Value>>)
    returns (r: Result<seq<map<string, Value>>>, fx: Effects)
    requires Listing(order, inputs)
    ensures db.OtherDb? ==> r == Err(Raised(InvalidDbMessage())) && fx == Effects(None, false, false)
    ensures !db.OtherDb? ==>
              r == Ok(Rows(columns, rows)) &&
              fx == Effects(Some(Expand(inputs, query, order)), db.DictArg?, DebugOn(inputs))
  {
    var debug := DebugOn(inputs);
    if db.OtherDb? {
      return Err(Raised(InvalidDbMessage())), Effects(None, false, false);
    }
    var inputs', query' := PrepareInputs(inputs, query, order);
    var result := BuildRows(columns, rows);
    assert result == Rows(columns, rows);
    return Ok(result), Effects(Some((inputs', query')), db.DictArg?, debug);
  }
}
