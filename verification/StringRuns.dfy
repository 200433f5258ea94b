// Programs over strings: sharing never shows.
module StringRuns {
  import opened Words
  import opened SharedStrings

  type Chars = seq<char>

  // What a program can do with the strings it holds; the numbers say which ones.
  datatype StringOp =
    | Make
    | MakeChars(text: Chars)
    | MakeChar(ch: char)
    | MakeCopy(i: nat)
    | MakeSubword(i: nat, offset: int, count: int, white: Delimiters)
    | Set(i: nat, j: nat)
    | SetChars(i: nat, text: Chars)
    | Append(i: nat, j: nat)
    | AppendChars(i: nat, text: Chars)
    | AppendChar(i: nat, ch: char)
    | Erase(i: nat)
    | Destroy(i: nat)

  predicate Allowed(op: StringOp, n: nat) {
    match op
    case Make => true
    case MakeChars(_) => true
    case MakeChar(_) => true
    case MakeCopy(i) => i < n
    case MakeSubword(i, _, _, _) => i < n
    case Set(i, j) => i < n && j < n
    case SetChars(i, _) => i < n
    case Append(i, j) => i < n && j < n
    case AppendChars(i, _) => i < n
    case AppendChar(i, _) => i < n
    case Erase(i) => i < n
    case Destroy(i) => i < n
  }

  // The same on plain values, each string on its own.
  function ValueStep(v: seq<Chars>, op: StringOp): seq<Chars>
    requires Allowed(op, |v|)
  {
    match op
    case Make => v + [[]]
    case MakeChars(text) => v + [Text(text)]
    case MakeChar(ch) => v + [Text([ch])]
    case MakeCopy(i) => v + [v[i]]
    case MakeSubword(i, offset, count, white) => v + [Subword(v[i], offset, count, white)]
    case Set(i, j) => v[i := v[j]]
    case SetChars(i, text) => v[i := Text(text)]
    case Append(i, j) => v[i := v[i] + v[j]]
    case AppendChars(i, text) => v[i := v[i] + Text(text)]
    case AppendChar(i, ch) => v[i := Text(v[i] + [ch])]
    case Erase(i) => v[i := []]
    case Destroy(i) => v[..i] + v[i + 1..]
  }

  // Operations on strings the program does not hold are not run.
  function ValueRun(v: seq<Chars>, ops: seq<StringOp>): seq<Chars>
    decreases |ops|
  {
    if ops == [] then v
    else if Allowed(ops[0], |v|) then ValueRun(ValueStep(v, ops[0]), ops[1..])
    else ValueRun(v, ops[1..])
  }

  lemma OneRun(v: seq<Chars>, op: StringOp)
    ensures ValueRun(v, [op]) == if Allowed(op, |v|) then ValueStep(v, op) else v
  {
    hide Allowed, ValueStep;
    assert [op][1..] == [];
  }

  // One operation, case by case: new strings, ...
  lemma MakingOne(v: seq<Chars>, i: nat, text: Chars, ch: char, offset: int, count: int, white: Delimiters)
    requires '\0' !in text
    ensures ValueRun(v, [Make]) == v + [[]] && ValueRun(v, [MakeChars(text)]) == v + [text]
    ensures ValueRun(v, [MakeChar(ch)]) == v + [if ch == '\0' then [] else [ch]]
    ensures ValueRun(v, [MakeCopy(i)]) == if i < |v| then v + [v[i]] else v
    ensures ValueRun(v, [MakeSubword(i, offset, count, white)]) ==
            if i < |v| then v + [Subword(v[i], offset, count, white)] else v
  {
    hide Text, Subword, ValueRun;
    OneRun(v, Make);
    OneRun(v, MakeChars(text));
    OneRun(v, MakeChar(ch));
    OneRun(v, MakeCopy(i));
    OneRun(v, MakeSubword(i, offset, count, white));
    TextOfText(text);
    TextOfOne([], ch);
    assert [] + [ch] == [ch];
  }

  // ... and changes, of which each is to one string and none happens to a string
  // that the program does not hold: by another string, ...
  lemma ChangingOne(v: seq<Chars>, i: nat, j: nat)
    ensures ValueRun(v, [Set(i, j)]) == if i < |v| && j < |v| then v[i := v[j]] else v
    ensures ValueRun(v, [Append(i, j)]) == if i < |v| && j < |v| then v[i := v[i] + v[j]] else v
    ensures ValueRun(v, [Erase(i)]) == if i < |v| then v[i := []] else v
    ensures ValueRun(v, [Destroy(i)]) == if i < |v| then v[..i] + v[i + 1..] else v
  {
    hide ValueRun;
    OneRun(v, Set(i, j));
    OneRun(v, Append(i, j));
    OneRun(v, Erase(i));
    OneRun(v, Destroy(i));
  }

  // ... or by characters.
  lemma ChangingByChars(v: seq<Chars>, i: nat, text: Chars, ch: char)
    requires '\0' !in text && (i < |v| ==> '\0' !in v[i])
    ensures ValueRun(v, [SetChars(i, text)]) == if i < |v| then v[i := text] else v
    ensures ValueRun(v, [AppendChars(i, text)]) == if i < |v| then v[i := v[i] + text] else v
    ensures ValueRun(v, [AppendChar(i, ch)]) == if i < |v| && ch != '\0' then v[i := v[i] + [ch]] else v
  {
    hide Text, ValueRun;
    OneRun(v, SetChars(i, text));
    OneRun(v, AppendChars(i, text));
    OneRun(v, AppendChar(i, ch));
    TextOfText(text);
    if i < |v| { TextOfOne(v[i], ch); }
  }

  // Operations one after the other.
  lemma {:induction false} RunsConcat(v: seq<Chars>, a: seq<StringOp>, b: seq<StringOp>)
    ensures ValueRun(v, a + b) == ValueRun(ValueRun(v, a), b)
    decreases |a|
  {
    hide Allowed, ValueStep;
    if a == [] {
      assert a + b == b;
    } else {
      assert (a + b)[1..] == a[1..] + b;
      RunsConcat(if Allowed(a[0], |v|) then ValueStep(v, a[0]) else v, a[1..], b);
    }
  }

  lemma TextOfOne(t: Chars, ch: char)
    requires '\0' !in t
    ensures Text(t + [ch]) == if ch == '\0' then t else t + [ch]
  {
    hide Text;
    if ch == '\0' {
      assert (t + [ch])[..|t|] == t;
      TextIs(t + [ch], |t|);
    } else {
      TextOfText(t + [ch]);
    }
  }

  // The program holds exactly the living strings, with these values.
  ghost predicate Holds(pool: Pool, held: seq<String>, v: seq<Chars>)
    reads pool
  {
    && |held| == |v|
    && (forall i :: 0 <= i < |held| ==> held[i] in pool.values && pool.values[held[i]] == v[i])
    && (forall i, j :: 0 <= i < j < |held| ==> held[i] != held[j])
    && (forall s :: s in pool.values ==> s in held)
  }

  // Nothing leaks: every living node is used, so the last string takes the last
  // node with it.
  lemma NoLeak(pool: Pool)
    requires pool.Valid()
    ensures forall n :: n in pool.nodes ==> exists s :: s in pool.values && s.rep == n
    ensures pool.values == map[] ==> pool.nodes == {}
  {
    forall n | n in pool.nodes ensures exists s :: s in pool.values && s.rep == n {
      var s :| s in n.owners;
      assert s in pool.values;
    }
  }

  // A C string in memory.
  method CString(text: Chars) returns (a: array<char>)
    ensures fresh(a) && Ended(a[..]) && Text(a[..]) == Text(text)
  {
    a := new char[|text| + 1];
    forall k | 0 <= k < |text| { a[k] := text[k]; }
    a[|text|] := '\0';
    var n := |Text(text)|;
    assert a[..][..n] == Text(text);
    TextIs(a[..], n);
  }

  // A new string is held besides the others.
  lemma HeldMore(pool: Pool, held: seq<String>, s: String, v: seq<Chars>, was: map<String, Chars>)
    requires |held| == |v| && s !in held && s !in was && s in pool.values && pool.values == was[s := pool.values[s]]
    requires forall i :: 0 <= i < |held| ==> held[i] in was && was[held[i]] == v[i]
    requires forall i, j :: 0 <= i < j < |held| ==> held[i] != held[j]
    requires forall s :: s in was ==> s in held
    ensures Holds(pool, held + [s], v + [pool.values[s]])
  {
  }

  // A held string has a new value.
  lemma HeldChanged(pool: Pool, held: seq<String>, i: nat, v: seq<Chars>, was: map<String, Chars>)
    requires |held| == |v| && i < |held| && held[i] in pool.values
             && pool.values == was[held[i] := pool.values[held[i]]]
    requires forall i :: 0 <= i < |held| ==> held[i] in was && was[held[i]] == v[i]
    requires forall i, j :: 0 <= i < j < |held| ==> held[i] != held[j]
    requires forall s :: s in was ==> s in held
    ensures Holds(pool, held, v[i := pool.values[held[i]]])
  {
  }

  // Operations that make a string.
  method MakeStep(ghost pool: Pool, held: seq<String>, op: StringOp, ghost v: seq<Chars>) returns (s: String)
    requires pool.Valid() && Holds(pool, held, v) && Allowed(op, |held|)
    requires op.Make? || op.MakeChars? || op.MakeChar? || op.MakeCopy? || op.MakeSubword?
    modifies pool, pool.nodes
    ensures pool.Valid() && fresh(s) && Holds(pool, held + [s], ValueStep(v, op)) && fresh(pool.nodes - old(pool.nodes))
  {
    hide Pool.Valid, Text, Ended, Words.Subword, Holds;
    HoldsIs(pool, held, v);
    ghost var was := pool.values;
    if op.Make? {
      s := new String(pool);
    } else if op.MakeChars? {
      var a := CString(op.text);
      s := new String.FromChars(a, pool);
    } else if op.MakeChar? {
      s := new String.FromChar(op.ch, pool);
    } else if op.MakeCopy? {
      pool.HasNode(held[op.i]);
      s := new String.Copy(held[op.i], pool);
    } else {
      s := held[op.i].Subword(op.offset, op.count, op.white, pool);
    }
    HeldMore(pool, held, s, v, was);
  }

  lemma HoldsIs(pool: Pool, held: seq<String>, v: seq<Chars>)
    requires Holds(pool, held, v)
    ensures |held| == |v|
    ensures forall i :: 0 <= i < |held| ==> held[i] in pool.values && pool.values[held[i]] == v[i]
    ensures forall i, j :: 0 <= i < j < |held| ==> held[i] != held[j]
    ensures forall s :: s in pool.values ==> s in held
  {
  }

  // Operations that change a string.
  method ChangeStep(ghost pool: Pool, held: seq<String>, op: StringOp, ghost v: seq<Chars>)
    requires pool.Valid() && Holds(pool, held, v) && Allowed(op, |held|)
    requires op.Set? || op.SetChars? || op.Append? || op.AppendChars? || op.AppendChar? || op.Erase?
    modifies pool, held, pool.nodes
    ensures pool.Valid() && Holds(pool, held, ValueStep(v, op)) && fresh(pool.nodes - old(pool.nodes))
  {
    hide Pool.Valid, Text, Ended, Holds;
    HoldsIs(pool, held, v);
    ghost var was := pool.values;
    pool.HasNode(held[op.i]);
    if op.Set? {
      pool.HasNode(held[op.j]);
      held[op.i].Assign(held[op.j], pool);
    } else if op.SetChars? {
      var a := CString(op.text);
      held[op.i].AssignChars(a, pool);
    } else if op.Append? {
      held[op.i].Append(held[op.j], pool);
    } else if op.AppendChars? {
      var a := CString(op.text);
      held[op.i].AppendChars(a, pool);
    } else if op.AppendChar? {
      held[op.i].AppendChar(op.ch, pool);
    } else {
      held[op.i].Erase(pool);
    }
    HeldChanged(pool, held, op.i, v, was);
  }

  method DestroyStep(ghost pool: Pool, held: seq<String>, i: nat, ghost v: seq<Chars>) returns (held': seq<String>)
    requires pool.Valid() && Holds(pool, held, v) && i < |held|
    modifies pool, pool.nodes
    ensures pool.Valid() && held' == held[..i] + held[i + 1..] && Holds(pool, held', v[..i] + v[i + 1..])
    ensures pool.nodes <= old(pool.nodes)
  {
    hide Pool.Valid, Text, Ended, Holds;
    HoldsIs(pool, held, v);
    ghost var was := pool.values;
    pool.HasNode(held[i]);
    held[i].Release(pool);
    held' := held[..i] + held[i + 1..];
    HeldLess(pool, held, i, v, was);
  }

  lemma HeldLess(pool: Pool, held: seq<String>, i: nat, v: seq<Chars>, was: map<String, Chars>)
    requires |held| == |v| && i < |held| && pool.values == was - {held[i]}
    requires forall i :: 0 <= i < |held| ==> held[i] in was && was[held[i]] == v[i]
    requires forall i, j :: 0 <= i < j < |held| ==> held[i] != held[j]
    requires forall s :: s in was ==> s in held
    ensures Holds(pool, held[..i] + held[i + 1..], v[..i] + v[i + 1..])
  {
    var held', v' := held[..i] + held[i + 1..], v[..i] + v[i + 1..];
    forall j | 0 <= j < |held'|
      ensures held'[j] == held[if j < i then j else j + 1] && v'[j] == v[if j < i then j else j + 1]
    {}
    forall s | s in pool.values ensures s in held' {
      var k :| 0 <= k < |held| && held[k] == s;
      assert held'[if k < i then k else k - 1] == s;
    }
  }

  // One operation.
  method Step(ghost pool: Pool, held: seq<String>, op: StringOp, ghost v: seq<Chars>) returns (held': seq<String>)
    requires pool.Valid() && Holds(pool, held, v) && Allowed(op, |held|)
    modifies pool, held, pool.nodes
    ensures pool.Valid() && Holds(pool, held', ValueStep(v, op))
    ensures (forall s :: s in held' && s !in held ==> fresh(s)) && fresh(pool.nodes - old(pool.nodes))
  {
    hide Pool.Valid, Text, Ended, Words.Subword, Holds;
    HoldsIs(pool, held, v);
    if op.Make? || op.MakeChars? || op.MakeChar? || op.MakeCopy? || op.MakeSubword? {
      var s := MakeStep(pool, held, op, v);
      held' := held + [s];
    } else if op.Destroy? {
      held' := DestroyStep(pool, held, op.i, v);
    } else {
      ChangeStep(pool, held, op, v);
      held' := held;
    }
  }

  // The characters of a string, as operator const char * gives them.
  method Read(s: String, ghost pool: Pool) returns (chars: Chars)
    requires pool.Valid() && s in pool.values
    ensures chars == pool.values[s]
  {
    hide Text, Ended;
    pool.HasNode(s);
    var n := Strlen(s.rep.workspace);
    chars := s.rep.workspace[..n];
  }

  // Whatever a program does, its strings have the values they would have if
  // nothing were shared.
  method Execute(ops: seq<StringOp>) returns (values: seq<Chars>)
    ensures values == ValueRun([], ops)
  {
    hide Pool.Valid, Text, Ended, Holds, Allowed, ValueStep;
    ghost var pool := new Pool();
    var held: seq<String> := [];
    ghost var v: seq<Chars> := [];
    HoldsNothing(pool);
    var i := 0;
    while i < |ops|
      invariant 0 <= i <= |ops| && pool.Valid() && Holds(pool, held, v) && |held| == |v|
      invariant fresh(pool) && fresh(held) && fresh(pool.nodes)
      invariant ValueRun(v, ops[i..]) == ValueRun([], ops)
    {
      assert ops[i..][0] == ops[i] && ops[i..][1..] == ops[i + 1..];
      if Allowed(ops[i], |held|) {
        held := Step(pool, held, ops[i], v);
        v := ValueStep(v, ops[i]);
        HoldsIs(pool, held, v);
      }
      i := i + 1;
    }
    HoldsIs(pool, held, v);
    values := [];
    i := 0;
    while i < |held|
      invariant 0 <= i <= |held| == |v| && values == v[..i] && pool.Valid() && Holds(pool, held, v)
    {
      HoldsIs(pool, held, v);
      var chars := Read(held[i], pool);
      values := values + [chars];
      i := i + 1;
    }
  }

  lemma HoldsNothing(pool: Pool)
    requires pool.values == map[]
    ensures Holds(pool, [], [])
  {
  }
}
