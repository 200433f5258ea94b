// The reference-counted strings of FAT/str.cpp: String objects that share nodes.
module SharedStrings {
  import opened Words

  // ----- C strings -----

  // The characters up to the first null character.
  function Text(a: seq<char>): (t: seq<char>)
    ensures |t| <= |a| && t == a[..|t|] && '\0' !in t
    ensures forall k :: 0 <= k < |t| ==> a[k] != '\0'
    ensures |t| < |a| ==> a[|t|] == '\0'
  {
    if a == [] || a[0] == '\0' then [] else [a[0]] + Text(a[1..])
  }

  predicate Ended(a: seq<char>) { |Text(a)| < |a| }

  lemma {:induction false} TextIs(a: seq<char>, n: nat)
    requires n < |a| && a[n] == '\0' && '\0' !in a[..n]
    ensures Text(a) == a[..n] && Ended(a)
  {
    if n > 0 {
      assert a[..n][0] == a[0];
      assert a[..n] == [a[0]] + a[1..][..n - 1];
      TextIs(a[1..], n - 1);
    }
  }

  lemma {:induction false} TextOfText(t: seq<char>)
    requires '\0' !in t
    ensures Text(t) == t
  {
    if t != [] { TextOfText(t[1..]); }
  }

  method Strlen(a: array<char>) returns (n: nat)
    requires Ended(a[..])
    ensures n == |Text(a[..])|
  {
    n := 0;
    while a[n] != '\0'
      invariant n <= |Text(a[..])|
      decreases a.Length - n
    {
      n := n + 1;
    }
  }

  // Copies a string and its terminator to an offset.
  method CopyTo(to: array<char>, at: nat, from: array<char>)
    requires to != from && Ended(from[..]) && at + |Text(from[..])| < to.Length
    modifies to
    ensures to[..at] == old(to[..at]) && Ended(to[at..]) && Text(to[at..]) == Text(from[..])
  {
    var n := Strlen(from);
    ghost var source, t := from[..], Text(from[..]);
    forall k | 0 <= k <= n { to[at + k] := from[k]; }
    assert from[..] == source;
    assert to[at..][..n] == t;
    TextIs(to[at..], n);
  }

  method Strcpy(to: array<char>, from: array<char>)
    requires to != from && Ended(from[..]) && |Text(from[..])| < to.Length
    modifies to
    ensures Ended(to[..]) && Text(to[..]) == Text(from[..])
  {
    CopyTo(to, 0, from);
    assert to[0..] == to[..];
  }

  method Strcat(to: array<char>, from: array<char>)
    requires to != from && Ended(to[..]) && Ended(from[..])
    requires |Text(to[..])| + |Text(from[..])| < to.Length
    modifies to
    ensures Ended(to[..]) && Text(to[..]) == Text(old(to[..])) + Text(from[..])
  {
    ghost var head := Text(to[..]);
    var n := Strlen(to);
    CopyTo(to, n, from);
    ghost var tail := Text(from[..]);
    assert to[..n] == head;
    assert to[..n + |tail|] == head + tail by { assert to[n..][..|tail|] == tail; }
    assert to[n + |tail|] == to[n..][|tail|];
    TextIs(to[..], n + |tail|);
  }

  // ----- Words -----

  // The scan of words().
  method CountWords(a: array<char>, white: Delimiters) returns (wordCount: nat)
    requires Ended(a[..])
    ensures wordCount == |Runs(Text(a[..]), 0, white)|
  {
    hide IsWhite, Runs, SkipWord, SkipWhite, Text;
    ghost var t := Text(a[..]);
    ScanEnd(t, white);
    wordCount := 0;
    var inWord := false;
    var p := 0;
    while a[p] != '\0'
      invariant p <= |t|
      invariant wordCount + |Runs(t, if inWord then SkipWord(t, p, white) else p, white)| == |Runs(t, 0, white)|
      decreases |t| - p
    {
      ScanStep(t, p, white);
      // A word begins.
      if !IsWhite(a[p], white) && !inWord {
        wordCount := wordCount + 1;
        inWord := true;
      }
      // A word ends.
      if IsWhite(a[p], white) && inWord {
        inWord := false;
      }
      p := p + 1;
    }
  }

  lemma ScanStep(t: seq<char>, p: nat, white: Delimiters)
    requires p < |t|
    ensures IsWhite(t[p], white) ==> Runs(t, p, white) == Runs(t, p + 1, white) && SkipWord(t, p, white) == p
    ensures !IsWhite(t[p], white) ==>
              && SkipWord(t, p, white) == SkipWord(t, p + 1, white)
              && |Runs(t, p, white)| == 1 + |Runs(t, SkipWord(t, p, white), white)|
  {
    hide IsWhite;
  }

  lemma ScanEnd(t: seq<char>, white: Delimiters)
    ensures Runs(t, |t|, white) == [] && SkipWord(t, |t|, white) == |t|
  {
  }

  // The first scan of subword(): the beginning of the word behind skip words. No
  // pointer passes the terminator, although neither loop looks for it and a
  // custom set makes it white.
  method FindStart(a: array<char>, skip: nat, white: Delimiters) returns (start: nat)
    requires Ended(a[..]) && skip < |Runs(Text(a[..]), 0, white)|
    ensures start == Runs(Text(a[..]), 0, white)[skip].start < |Text(a[..])|
    ensures start == SkipWhite(Text(a[..]), start, white)
    ensures Runs(Text(a[..]), start, white) == Runs(Text(a[..]), 0, white)[skip..]
  {
    hide IsWhite, SkipWhite, SkipWord, Runs, Text, Ended;
    ghost var t := Text(a[..]);
    ghost var rs := Runs(t, 0, white);
    var offset := skip;
    start := 0;
    while true
      invariant start <= |t| && 0 <= offset <= skip && Runs(t, start, white) == rs[skip - offset..]
      decreases offset
    {
      NextRun(t, start, white);
      start := PastWhite(a, start, white);
      if offset == 0 { break; }
      NextRun(t, start, white);
      start := PastWord(a, start, white);
      offset := offset - 1;
    }
  }

  // The second scan: the end of the last of take words from there.
  method FindEnd(a: array<char>, start: nat, take: nat, white: Delimiters) returns (end: nat)
    requires Ended(a[..]) && start <= |Text(a[..])| && 0 < take <= |Runs(Text(a[..]), start, white)|
    requires start == SkipWhite(Text(a[..]), start, white)
    ensures start <= end <= |Text(a[..])|
    ensures end == Runs(Text(a[..]), start, white)[take - 1].finish
  {
    hide IsWhite, SkipWhite, SkipWord, Runs, Text, Ended;
    ghost var t := Text(a[..]);
    ghost var rs := Runs(t, start, white);
    var count := take;
    end := start;
    while true
      invariant start <= end <= |t| && 0 < count <= take && Runs(t, end, white) == rs[take - count..]
      invariant end == SkipWhite(t, end, white)
      decreases count
    {
      NextRun(t, end, white);
      end := PastLastWord(a, end, white);
      count := count - 1;
      if count == 0 { break; }
      NextRun(t, end, white);
      end := PastWhite(a, end, white);
    }
  }

  // What the next word is, and that white space in front of it does not matter.
  lemma NextRun(t: seq<char>, i: nat, white: Delimiters)
    requires i <= |t| && Runs(t, i, white) != []
    ensures var a := SkipWhite(t, i, white);
            && a < |t| && SkipWhite(t, a, white) == a && Runs(t, a, white) == Runs(t, i, white)
            && Runs(t, i, white)[0] == Run(a, SkipWord(t, a, white))
            && Runs(t, SkipWord(t, a, white), white) == Runs(t, i, white)[1..]
  {
    hide IsWhite;
  }

  // A loop over white space, with a word ahead.
  method PastWhite(a: array<char>, from: nat, white: Delimiters) returns (p: nat)
    requires Ended(a[..]) && from <= |Text(a[..])| && Runs(Text(a[..]), from, white) != []
    ensures p == SkipWhite(Text(a[..]), from, white) && p < |Text(a[..])|
  {
    hide IsWhite;
    ghost var t := Text(a[..]);
    p := from;
    while IsWhite(a[p], white)
      invariant from <= p <= SkipWhite(t, from, white) < |t|
      decreases |t| - p
    {
      p := p + 1;
    }
  }

  // A loop over a word, with another word behind it.
  method PastWord(a: array<char>, from: nat, white: Delimiters) returns (p: nat)
    requires Ended(a[..]) && from <= |Text(a[..])|
    requires Runs(Text(a[..]), SkipWord(Text(a[..]), from, white), white) != []
    ensures p == SkipWord(Text(a[..]), from, white) && p < |Text(a[..])|
  {
    hide IsWhite;
    ghost var t := Text(a[..]);
    p := from;
    while !IsWhite(a[p], white)
      invariant from <= p <= SkipWord(t, from, white) < |t|
      decreases |t| - p
    {
      p := p + 1;
    }
  }

  // The loop over a word that may be the last one.
  method PastLastWord(a: array<char>, from: nat, white: Delimiters) returns (p: nat)
    requires Ended(a[..]) && from <= |Text(a[..])|
    ensures p == SkipWord(Text(a[..]), from, white)
  {
    hide IsWhite;
    ghost var t := Text(a[..]);
    p := from;
    while !(IsWhite(a[p], white) || a[p] == '\0')
      invariant from <= p <= SkipWord(t, from, white)
      decreases |t| - p
    {
      p := p + 1;
    }
  }

  // ----- Nodes and strings -----

  class Node {
    var count: int
    var workspace: array<char>
    ghost var text: seq<char>
    ghost var owners: set<String>

    constructor (buffer: array<char>)
      requires Ended(buffer[..])
      ensures count == 1 && workspace == buffer && text == Text(buffer[..]) && Ok() && owners == {}
    {
      count, workspace, text, owners := 1, buffer, Text(buffer[..]), {};
    }

    // The buffer holds the text.
    ghost predicate Ok()
      reads `workspace, `text, workspace
    {
      Ended(workspace[..]) && text == Text(workspace[..])
    }

    lemma OkIs()
      requires Ended(workspace[..]) && text == Text(workspace[..])
      ensures Ok()
    {
    }
  }

  // What is alive: the strings a program holds, with their values, and the nodes
  // not yet deleted.
  class Pool {
    ghost var values: map<String, seq<char>>
    ghost var nodes: set<Node>

    ghost constructor ()
      ensures values == map[] && nodes == {} && Valid()
    {
      values, nodes := map[], {};
    }

    // The owners of a living node are the strings that point to it, and it has a
    // buffer of its own that holds the value of all of them.
    ghost predicate Shape()
      reads this, values.Keys, nodes`owners, nodes`text, nodes`workspace, set n | n in nodes :: n.workspace
    {
      && (forall s :: s in values ==> s.rep in nodes && s in s.rep.owners && values[s] == s.rep.text)
      && (forall n, s :: n in nodes && s in n.owners ==> s in values && s.rep == n)
      && (forall n :: n in nodes ==> n.Ok())
      && (forall m, n :: m in nodes && n in nodes && m != n ==> m.workspace != n.workspace)
    }

    // Every living node counts its owners, of which there is at least one.
    ghost predicate Valid()
      reads this, values.Keys, nodes, set n | n in nodes :: n.workspace
    {
      Shape() && forall n :: n in nodes ==> n.count == |n.owners| && n.owners != {}
    }

    lemma HasNode(s: String)
      requires Valid() && s in values
      ensures s.rep in nodes && s in s.rep.owners && s.rep.Ok() && values[s] == s.rep.text
    {
    }

    // delete of a node and its buffer.
    ghost method Delete(n: Node)
      requires Shape() && n in nodes && n.owners == {}
      modifies `nodes
      ensures Shape() && nodes == old(nodes) - {n}
    {
      hide Node.Ok;
      nodes := nodes - {n};
    }

    // A string with a new node comes to life.
    ghost method Enter(s: String)
      requires Valid() && s !in values && s.rep !in nodes && s.rep.count == 1 && s.rep.Ok()
      requires forall n :: n in nodes ==> n.workspace != s.rep.workspace
      modifies this, s.rep`owners
      ensures Valid() && s.rep.owners == {s} && nodes == old(nodes) + {s.rep} && values == old(values)[s := s.rep.text]
    {
      hide Node.Ok, Text, Ended;
      values, nodes := values[s := s.rep.text], nodes + {s.rep};
      s.rep.owners := {s};
    }
  }

  class String {
    var rep: Node

    // The string goes: its node has one owner less.
    ghost method Leave(pool: Pool)
      requires pool.Shape() && this in pool.values
      modifies pool`values, rep`owners
      ensures pool.Shape() && pool.values == old(pool.values) - {this}
      ensures rep.owners == old(rep.owners) - {this}
    {
      hide Node.Ok, Text, Ended;
      rep.owners := rep.owners - {this};
      pool.values := pool.values - {this};
    }

    // A string without characters.
    constructor (ghost pool: Pool)
      requires pool.Valid()
      modifies pool
      ensures pool.Valid() && fresh(rep) && rep.owners == {this} && pool.nodes == old(pool.nodes) + {rep}
      ensures pool.values == old(pool.values)[this := []]
    {
      var workspace := new char[1];
      workspace[0] := '\0';
      rep := new Node(workspace);
      new;
      pool.Enter(this);
    }

    // A copy: the node is shared.
    constructor Copy(existing: String, ghost pool: Pool)
      requires pool.Valid() && existing in pool.values
      modifies pool, existing.rep`count, existing.rep`owners
      ensures pool.Valid() && rep == existing.rep && pool.nodes == old(pool.nodes)
      ensures pool.values == old(pool.values)[this := old(pool.values[existing])]
    {
      hide Pool.Valid;
      rep := existing.rep;
      new;
      Share(existing, pool);
    }

    // One owner more for the node of another string.
    method Share(existing: String, ghost pool: Pool)
      requires pool.Valid() && existing in pool.values && this !in pool.values && rep == existing.rep
      modifies pool, rep`count, rep`owners
      ensures pool.Valid() && pool.nodes == old(pool.nodes)
      ensures pool.values == old(pool.values)[this := old(pool.values[existing])]
    {
      hide Node.Ok, Text, Ended;
      rep.count := rep.count + 1;
      rep.owners := rep.owners + {this};
      pool.values := pool.values[this := rep.text];
    }

    constructor FromChars(existing: array<char>, ghost pool: Pool)
      requires pool.Valid() && Ended(existing[..])
      modifies pool
      ensures pool.Valid() && fresh(rep) && pool.nodes == old(pool.nodes) + {rep}
      ensures pool.values == old(pool.values)[this := Text(existing[..])]
    {
      hide Pool.Valid, Text, Ended;
      var n := Strlen(existing);
      var workspace := new char[n + 1];
      Strcpy(workspace, existing);
      rep := new Node(workspace);
      new;
      pool.Enter(this);
    }

    // ~String(), and the first half of every assignment: the node goes with its
    // last owner.
    method Release(ghost pool: Pool)
      requires pool.Valid() && this in pool.values
      modifies pool, rep`count, rep`owners
      ensures pool.Valid() && pool.values == old(pool.values) - {this}
      ensures pool.nodes == if old(rep.owners) == {this} then old(pool.nodes) - {rep} else old(pool.nodes)
    {
      hide Pool.Shape;
      pool.HasNode(this);
      ghost var owners := rep.owners;
      assert owners == {this} <==> |owners| == 1 by { assert |owners - {this}| == |owners| - 1; }
      Leave(pool);
      if rep.count > 1 {
        rep.count := rep.count - 1;
      } else {
        pool.Delete(rep);
      }
    }

    constructor FromChar(existing: char, ghost pool: Pool)
      requires pool.Valid()
      modifies pool
      ensures pool.Valid() && fresh(rep) && pool.nodes == old(pool.nodes) + {rep}
      ensures pool.values == old(pool.values)[this := Text([existing])]
    {
      hide Pool.Valid, Text, Ended;
      var workspace := new char[2];
      workspace[0] := existing;
      workspace[1] := '\0';
      CharText([], existing, workspace[..]);
      assert [] + [existing] == [existing];
      rep := new Node(workspace);
      new;
      pool.Enter(this);
    }

    // The second half: a new node in place of the old one.
    method Replace(node: Node, ghost pool: Pool)
      requires pool.Valid() && this in pool.values && node !in pool.nodes && node.count == 1 && node.Ok()
      requires forall n :: n in pool.nodes ==> n.workspace != node.workspace
      modifies pool, `rep, rep`count, rep`owners, node`owners
      ensures pool.Valid() && rep == node && pool.values == old(pool.values)[this := node.text]
      ensures pool.nodes ==
              (if old(rep.owners) == {this} then old(pool.nodes) - {old(rep)} else old(pool.nodes)) + {node}
    {
      hide Pool.Valid, Node.Ok;
      pool.HasNode(this);
      Release(pool);
      rep := node;
      pool.Enter(this);
    }

    // operator=
    method Assign(other: String, ghost pool: Pool)
      requires pool.Valid() && this in pool.values && other in pool.values
      modifies pool, `rep, rep`count, rep`owners, other.rep`count, other.rep`owners
      ensures pool.Valid() && rep == old(other.rep) && pool.values == old(pool.values)[this := old(pool.values[other])]
      ensures pool.nodes ==
              if this != other && old(rep.owners) == {this} then old(pool.nodes) - {old(rep)} else old(pool.nodes)
    {
      hide Pool.Valid;
      if other == this { return; }
      Release(pool);
      rep := other.rep;
      Share(other, pool);
    }

    // A null pointer changes nothing.
    method AssignChars(other: array?<char>, ghost pool: Pool)
      requires pool.Valid() && this in pool.values && (other != null ==> Ended(other[..]))
      modifies pool, `rep, rep`count, rep`owners
      ensures pool.Valid()
      ensures other == null ==> rep == old(rep) && pool.values == old(pool.values) && pool.nodes == old(pool.nodes)
      ensures other != null ==>
                && fresh(rep) && pool.values == old(pool.values)[this := Text(other[..])]
                && pool.nodes ==
                   (if old(rep.owners) == {this} then old(pool.nodes) - {old(rep)} else old(pool.nodes)) + {rep}
    {
      hide Pool.Valid;
      if other == null { return; }
      var n := Strlen(other);
      var workspace := new char[n + 1];
      Strcpy(workspace, other);
      var node := new Node(workspace);
      Replace(node, pool);
    }

    // The text of a string ends in its own buffer and in the argument's.
    method Append(other: String, ghost pool: Pool)
      requires pool.Valid() && this in pool.values && other in pool.values
      modifies pool, `rep, rep`count, rep`owners
      ensures pool.Valid() && fresh(rep)
      ensures pool.values == old(pool.values)[this := old(pool.values[this]) + old(pool.values[other])]
      ensures pool.nodes ==
              (if old(rep.owners) == {this} then old(pool.nodes) - {old(rep)} else old(pool.nodes)) + {rep}
    {
      AppendChars(other.rep.workspace, pool);
    }

    method AppendChars(other: array<char>, ghost pool: Pool)
      requires pool.Valid() && this in pool.values && Ended(other[..])
      modifies pool, `rep, rep`count, rep`owners
      ensures pool.Valid() && fresh(rep)
      ensures pool.values == old(pool.values)[this := old(pool.values[this]) + Text(other[..])]
      ensures pool.nodes ==
              (if old(rep.owners) == {this} then old(pool.nodes) - {old(rep)} else old(pool.nodes)) + {rep}
    {
      hide Pool.Valid, Text, Ended;
      pool.HasNode(this);
      var a := Strlen(rep.workspace);
      var b := Strlen(other);
      var count := a + b;
      var workspace := new char[count + 1];
      Strcpy(workspace, rep.workspace);
      Strcat(workspace, other);
      var node := new Node(workspace);
      Replace(node, pool);
    }

    // Appending a null character changes nothing.
    method AppendChar(other: char, ghost pool: Pool)
      requires pool.Valid() && this in pool.values
      modifies pool, `rep, rep`count, rep`owners
      ensures pool.Valid() && fresh(rep)
      ensures pool.values == old(pool.values)[this := Text(old(pool.values[this]) + [other])]
      ensures pool.nodes ==
              (if old(rep.owners) == {this} then old(pool.nodes) - {old(rep)} else old(pool.nodes)) + {rep}
    {
      hide Pool.Valid, Text, Ended;
      pool.HasNode(this);
      ghost var t := rep.text;
      var a := Strlen(rep.workspace);
      var count := a + 1;
      var workspace := new char[count + 1];
      Strcpy(workspace, rep.workspace);
      workspace[count - 1] := other;
      workspace[count] := '\0';
      CharText(t, other, workspace[..]);
      var node := new Node(workspace);
      Replace(node, pool);
    }

    method Erase(ghost pool: Pool)
      requires pool.Valid() && this in pool.values
      modifies pool, `rep, rep`count, rep`owners
      ensures pool.Valid() && fresh(rep) && pool.values == old(pool.values)[this := []]
      ensures pool.nodes ==
              (if old(rep.owners) == {this} then old(pool.nodes) - {old(rep)} else old(pool.nodes)) + {rep}
    {
      hide Pool.Valid;
      var workspace := new char[1];
      workspace[0] := '\0';
      TextIs(workspace[..], 0);
      var node := new Node(workspace);
      Replace(node, pool);
    }

    method WordCount(white: Delimiters, ghost pool: Pool) returns (wordCount: nat)
      requires pool.Valid() && this in pool.values
      ensures wordCount == |Runs(pool.values[this], 0, white)|
    {
      hide Text, Ended, Runs;
      wordCount := CountWords(rep.workspace, white);
    }

    // The requested words, as the value of a new string.
    method Subword(offset': int, count': int, white: Delimiters, ghost pool: Pool) returns (result: String)
      requires pool.Valid() && this in pool.values
      modifies pool
      ensures pool.Valid() && fresh(result) && fresh(result.rep) && pool.nodes == old(pool.nodes) + {result.rep}
      ensures pool.values == old(pool.values)[result := Words.Subword(old(pool.values[this]), offset', count', white)]
    {
      hide Pool.Valid, Text, Ended, Runs;
      ghost var t := pool.values[this];
      pool.HasNode(this);
      result := new String(pool);
      var offset, count := offset' - 1, count';
      if offset < 0 || count < 0 { return; }
      var currentLength := CountWords(rep.workspace, white);
      if offset >= currentLength { return; }
      if count > currentLength - offset { count := currentLength - offset; }
      if count == 0 { return; }
      var start := FindStart(rep.workspace, offset, white);
      var end := FindEnd(rep.workspace, start, count, white);

      result.SetTo(rep.workspace, start, end, pool);
    }

    // A piece of a text becomes the value.
    method SetTo(from: array<char>, start: nat, end: nat, ghost pool: Pool)
      requires pool.Valid() && this in pool.values && rep.owners == {this}
      requires Ended(from[..]) && start <= end <= |Text(from[..])|
      modifies pool`values, rep`workspace, rep`text
      ensures pool.Valid() && pool.values == old(pool.values)[this := Text(from[..])[start..end]]
    {
      hide Pool.Valid, Text, Ended;
      ghost var t := Text(from[..]);
      var length := end - start;
      var temp := new char[length + 1];
      forall k | 0 <= k < length { temp[k] := from[start + k]; }
      temp[length] := '\0';
      PieceText(t, start, end, temp[..]);
      assert from[..] == old(from[..]);
      Rewrite(temp, pool);
    }

    // The buffer of a string that shares its node with no other is replaced.
    method Rewrite(temp: array<char>, ghost pool: Pool)
      requires pool.Valid() && this in pool.values && rep.owners == {this} && Ended(temp[..])
      requires forall n :: n in pool.nodes ==> n.workspace != temp
      modifies pool`values, rep`workspace, rep`text
      ensures pool.Valid() && pool.values == old(pool.values)[this := Text(temp[..])]
    {
      hide Text, Ended, Node.Ok;
      rep.workspace := temp;
      rep.text := Text(temp[..]);
      pool.values := pool.values[this := Text(temp[..])];
      rep.OkIs();
    }
  }

  // The text of a copied piece.
  lemma PieceText(t: seq<char>, i: nat, j: nat, a: seq<char>)
    requires i <= j <= |t| && '\0' !in t && a == t[i..j] + ['\0']
    ensures Ended(a) && Text(a) == t[i..j]
  {
    assert a[..j - i] == t[i..j];
    TextIs(a, j - i);
  }

  // A text, one more character, and a terminator behind both.
  lemma CharText(t: seq<char>, c: char, a: seq<char>)
    requires '\0' !in t && a == t + [c, '\0']
    ensures Ended(a) && Text(a) == Text(t + [c])
  {
    if c == '\0' {
      TextIs(a, |t|);
      TextIs(t + [c], |t|);
    } else {
      TextIs(a, |t| + 1);
      TextOfText(t + [c]);
    }
  }
}
