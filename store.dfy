/** The linked list of `StudentEntry` nodes that main.c keeps its records
    in, and the operations that walk and relink it: `findStudent`,
    `addStudent`, `deleteStudent`, `clearStudents`, `editStudent`, the
    writing loop of `saveData` and the reading and reversing loops of
    `loadData`. Each is proved against the value-level definitions of
    modules Registry and Codec. */
module Store {
  import opened Util
  import opened Records
  import opened Registry
  import opened Codec

  /** One `StudentEntry`: a record and the link to the next entry. */
  class Node {
    var data: StudentData
    var next: Node?

    constructor (data: StudentData, next: Node?)
      ensures this.data == data && this.next == next
    {
      this.data := data;
      this.next := next;
    }
  }

  /** The nodes of a sequence, as a set of objects. */
  ghost function Objects(ns: seq<Node>): set<object> {
    set i | 0 <= i < |ns| :: ns[i]
  }

  /** `ns` is a null-terminated chain of distinct nodes holding `xs` in
      order. */
  ghost predicate Chain(ns: seq<Node>, xs: seq<StudentData>)
    reads Objects(ns)
  {
    && |ns| == |xs|
    && (forall i :: 0 <= i < |ns| ==> ns[i].data == xs[i])
    && (forall i :: 0 <= i < |ns| - 1 ==> ns[i].next == ns[i + 1])
    && (ns != [] ==> ns[|ns| - 1].next == null)
    && (forall i, j :: 0 <= i < j < |ns| ==> ns[i] != ns[j])
  }

  /** A new node linked in front of a chain extends it. */
  lemma ChainCons(n: Node, ns: seq<Node>, x: StudentData, xs: seq<StudentData>)
    requires Chain(ns, xs)
    requires n !in ns && n.next == (if ns == [] then null else ns[0]) && n.data == x
    ensures Chain([n] + ns, [x] + xs)
    ensures Objects([n] + ns) == {n} + Objects(ns)
  {
    var ms, ys := [n] + ns, [x] + xs;
    forall i | 0 <= i < |ms|
      ensures ms[i].data == ys[i]
    {
      if i > 0 {
        assert ms[i] == ns[i - 1] && ys[i] == xs[i - 1];
      }
    }
    forall i | 0 <= i < |ms| - 1
      ensures ms[i].next == ms[i + 1]
    {
      if i > 0 {
        assert ms[i] == ns[i - 1] && ms[i + 1] == ns[i];
      }
    }
    forall i, j | 0 <= i < j < |ms|
      ensures ms[i] != ms[j]
    {
      assert ms[j] == ns[j - 1];
      if i > 0 {
        assert ms[i] == ns[i - 1];
      }
    }
    forall i | 0 <= i < |ns|
      ensures ns[i] in Objects(ms)
    {
      assert ns[i] == ms[i + 1];
    }
    assert ms[0] in Objects(ms);
  }

  /** Dropping the first node of a chain leaves a chain. */
  lemma ChainTail(ns: seq<Node>, xs: seq<StudentData>)
    requires Chain(ns, xs) && ns != []
    ensures Chain(ns[1..], xs[1..])
    ensures Objects(ns[1..]) <= Objects(ns) - {ns[0]}
  {
    forall i | 0 <= i < |ns| - 1
      ensures ns[1..][i] in Objects(ns) - {ns[0]}
    {
      assert ns[1..][i] == ns[i + 1];
    }
  }

  /** Once the link of node `k - 1` skips node `k`, and every other link
      is as in the chain, the nodes without node `k` form a chain. */
  lemma ChainUnlink(ns: seq<Node>, xs: seq<StudentData>, k: nat)
    requires 0 < k < |ns| && |ns| == |xs|
    requires forall j :: 0 <= j < |ns| ==> ns[j].data == xs[j]
    requires forall j :: 0 <= j < |ns| - 1 && j != k - 1 ==> ns[j].next == ns[j + 1]
    requires k < |ns| - 1 ==> ns[|ns| - 1].next == null
    requires ns[k - 1].next == (if k + 1 < |ns| then ns[k + 1] else null)
    requires forall i, j :: 0 <= i < j < |ns| ==> ns[i] != ns[j]
    ensures Chain(ns[..k] + ns[k + 1..], xs[..k] + xs[k + 1..])
    ensures Objects(ns[..k] + ns[k + 1..]) <= Objects(ns) - {ns[k]}
  {
    var ms := ns[..k] + ns[k + 1..];
    assert forall j :: 0 <= j < k ==> ms[j] == ns[j];
    assert forall j :: k <= j < |ms| ==> ms[j] == ns[j + 1];
    forall j | 0 <= j < |ms|
      ensures ms[j] in Objects(ns) - {ns[k]}
    {
      if j < k {
        assert ms[j] == ns[j];
      } else {
        assert ms[j] == ns[j + 1];
      }
    }
  }

  /** Nodes whose links all point one step back, the first to null, form
      the chain of the reversed sequence. */
  lemma ChainReversed(ns: seq<Node>, xs: seq<StudentData>)
    requires |ns| == |xs|
    requires forall j :: 0 <= j < |ns| ==> ns[j].data == xs[j]
    requires forall j :: 0 < j < |ns| ==> ns[j].next == ns[j - 1]
    requires ns != [] ==> ns[0].next == null
    requires forall i, j :: 0 <= i < j < |ns| ==> ns[i] != ns[j]
    ensures Chain(Reverse(ns), Reverse(xs))
    ensures Objects(Reverse(ns)) == Objects(ns)
    ensures ns != [] ==> Reverse(ns)[0] == ns[|ns| - 1]
  {
    var rs, ys := Reverse(ns), Reverse(xs);
    forall j | 0 <= j < |rs|
      ensures rs[j] == ns[|ns| - 1 - j] && ys[j] == xs[|xs| - 1 - j]
    {
      ReverseAt(ns, j);
      ReverseAt(xs, j);
    }
    forall j | 0 <= j < |ns|
      ensures ns[j] in Objects(rs)
    {
      assert ns[j] == rs[|ns| - 1 - j];
    }
  }

  /** One pass of the reading loop of `loadData`: the thirteen `fscanf`
      calls that fill one entry from the block at `pos` (or from what is
      left of the file). The records of the lines read so far grow by it. */
  method ReadRecord(lines: seq<string>, pos: nat, ghost k: nat) returns (record: StudentData, next: nat)
    requires pos == 1 + BlockSize * k && pos < |lines|
    ensures next == Min(pos + BlockSize, |lines|)
    ensures DecodeBody(lines[1..next]) == DecodeBody(lines[1..pos]) + [record]
  {
    next := pos + Min(BlockSize, |lines| - pos);
    record := DecodeBlock(lines[pos..next]);
    DecodeBodySnoc(lines, pos, next, k);
  }

  /** The list `student_entries` of main.c. `nodes` are its entries in link
      order and `Contents` their records. */
  class StudentList {
    var head: Node?
    ghost var nodes: seq<Node>
    ghost var Contents: seq<StudentData>
    ghost var Repr: set<object>

    /** `head` starts a null-terminated chain through `nodes`, no entry
        occurs twice, and the records are `Contents`. */
    ghost predicate Valid()
      reads this, Repr
    {
      && this in Repr
      && Objects(nodes) <= Repr
      && head == (if nodes == [] then null else nodes[0])
      && Chain(nodes, Contents)
    }

    /** The empty list the program starts with. */
    constructor ()
      ensures Valid() && Contents == [] && fresh(Repr - {this})
    {
      head := null;
      nodes := [];
      Contents := [];
      Repr := {this};
    }

    /** `findStudent`: the first entry whose NISN is `key`, or null. */
    method Find(key: string) returns (n: Node?)
      requires Valid()
      ensures n == null <==> Locate(Contents, key).None?
      ensures n != null ==> n == nodes[Locate(Contents, key).value] && n.data == Contents[Locate(Contents, key).value]
    {
      n := null;
      var curr := head;
      ghost var i := 0;
      while curr != null
        invariant 0 <= i <= |nodes|
        invariant curr == (if i < |nodes| then nodes[i] else null)
        invariant forall j :: 0 <= j < i ==> Contents[j].nisn != key
        decreases |nodes| - i
      {
        if curr.data.nisn == key {
          n := curr;
          break;
        }
        curr := curr.next;
        i := i + 1;
      }
    }

    /** `addStudent` with its answers already collected: when the NISN is
        new, the entry built from them is linked in at the front; when it
        is taken, nothing changes. */
    method Add(input: StudentData) returns (added: bool)
      requires Valid()
      modifies this
      ensures Valid() && fresh(Repr - old(Repr))
      ensures added <==> Locate(old(Contents), input.nisn).None?
      ensures Contents == if added then [NewEntry(input)] + old(Contents) else old(Contents)
    {
      var found := Find(input.nisn);
      if found != null {
        return false;
      }
      Push(NewEntry(input));
      added := true;
    }

    /** Links a new entry holding `x` in at the front. */
    method Push(x: StudentData)
      requires Valid()
      modifies this
      ensures Valid() && fresh(Repr - old(Repr))
      ensures Contents == [x] + old(Contents)
      ensures head != null && fresh(head) && nodes == [head] + old(nodes)
    {
      var entry := new Node(x, head);
      ChainCons(entry, nodes, x, Contents);
      head := entry;
      nodes := [entry] + nodes;
      Contents := [x] + Contents;
      Repr := Repr + {entry};
    }

    /** `deleteStudent`: the first entry with NISN `key` is unlinked. The
        walk stops only at that entry, so with a non-empty list the key
        must be present (past the end the walk would follow null). */
    method Delete(key: string)
      requires Valid()
      requires Contents == [] || Locate(Contents, key).Some?
      modifies Repr
      ensures Valid() && Repr <= old(Repr)
      ensures Contents == RemoveFirst(old(Contents), key)
    {
      var prev: Node? := null;
      var curr := head;
      ghost var i := 0;
      while head != null
        invariant Valid() && nodes == old(nodes) && Contents == old(Contents) && Repr == old(Repr)
        invariant 0 <= i <= |nodes|
        invariant head != null ==> i <= Locate(Contents, key).value
        invariant curr == (if i < |nodes| then nodes[i] else null)
        invariant prev == (if i == 0 then null else nodes[i - 1])
        invariant forall j :: 0 <= j < i ==> Contents[j].nisn != key
        decreases |nodes| - i
      {
        if curr.data.nisn == key {
          if prev == null {
            UnlinkFirst();
          } else {
            UnlinkAfter(prev, curr, i);
          }
          break;
        }
        prev := curr;
        curr := curr.next;
        i := i + 1;
      }
    }

    /** Unlinks the first entry: the list then starts at its successor. */
    method UnlinkFirst()
      requires Valid() && nodes != []
      modifies this
      ensures Valid() && Repr <= old(Repr)
      ensures Contents == old(Contents[1..])
    {
      ghost var ns, xs := nodes, Contents;
      ChainTail(ns, xs);
      head := head.next;
      nodes := ns[1..];
      Contents := xs[1..];
      Repr := Repr - {ns[0]};
    }

    /** Unlinks the entry `curr` at position `k > 0`: its predecessor
        `prev` then links past it. */
    method UnlinkAfter(prev: Node, curr: Node, ghost k: nat)
      requires Valid() && 0 < k < |nodes| && curr == nodes[k] && prev == nodes[k - 1]
      modifies Repr
      ensures Valid() && Repr <= old(Repr)
      ensures Contents == old(Contents[..k] + Contents[k + 1..])
    {
      ghost var ns, xs := nodes, Contents;
      prev.next := curr.next;
      assert forall j :: 0 <= j < |ns| && j != k - 1 ==> ns[j] != prev;
      ChainUnlink(ns, xs, k);
      nodes := ns[..k] + ns[k + 1..];
      Contents := xs[..k] + xs[k + 1..];
      Repr := Repr - {curr};
    }

    /** `clearStudents`: deletes the first entry by its own NISN until the
        list is empty. */
    method Clear()
      requires Valid()
      modifies Repr
      ensures Valid() && Repr <= old(Repr)
      ensures Contents == []
    {
      while head != null
        invariant Valid() && Repr <= old(Repr)
        decreases |Contents|
      {
        DeleteHeadByOwnKey(Contents);
        Delete(head.data.nisn);
      }
    }

    /** `editStudent` with the NISN and the menu answer already read: the
        entry found is edited in place or deleted; an unknown NISN changes
        nothing. */
    method EditStudent(key: string, choice: MenuChoice) returns (found: bool)
      requires Valid()
      modifies Repr
      ensures Valid() && Repr <= old(Repr)
      ensures found <==> Locate(old(Contents), key).Some?
      ensures Contents == Edited(old(Contents), key, choice)
    {
      var target := Find(key);
      if target == null {
        return false;
      }
      found := true;
      ghost var k := Locate(Contents, key).value;
      match choice
      case Change(e) =>
        Rewrite(target, k, ApplyEdit(target.data, e));
      case Remove =>
        Delete(key);
      case Cancel =>
    }

    /** Stores `r` in the entry `target` at position `k`. */
    method Rewrite(target: Node, ghost k: nat, r: StudentData)
      requires Valid() && k < |nodes| && target == nodes[k]
      modifies this, target
      ensures Valid() && Repr == old(Repr)
      ensures Contents == old(Contents)[k := r]
    {
      ghost var ns := nodes;
      target.data := r;
      Contents := Contents[k := r];
      assert forall j :: 0 <= j < |ns| && j != k ==> ns[j] != target;
    }

    /** The writing loop of `saveData`: the header line, then the thirteen
        lines of each entry in list order. */
    method Save() returns (lines: seq<string>)
      requires Valid()
      ensures lines == Encode(Contents)
    {
      lines := [Magic];
      var curr := head;
      ghost var i := 0;
      assert Encode(Contents[..0]) == [Magic] + Blocks([]);
      while curr != null
        invariant 0 <= i <= |nodes|
        invariant curr == (if i < |nodes| then nodes[i] else null)
        invariant lines == Encode(Contents[..i])
        decreases |nodes| - i
      {
        assert curr.data == Contents[i];
        EncodePrefix(Contents, i);
        lines := lines + EncodeRecord(curr.data);
        curr := curr.next;
        i := i + 1;
      }
      assert Contents[..i] == Contents;
    }

    /** `loadData`: `file` is the text of the file at the path read, or
        None when it cannot be opened. The result replaces the list held
        before, which is dropped, not freed: a file that cannot be opened
        leaves the empty list. Each record read is pushed on the front of
        a new list, which is then reversed in place. */
    method Load(file: Option<string>) returns (headerOk: bool)
      modifies this
      ensures Valid() && fresh(Repr - {this})
      ensures file.None? ==> !headerOk && Contents == []
      ensures file.Some? ==> headerOk == Decode(file.value).headerOk
      ensures file.Some? ==> Contents == Decode(file.value).records
    {
      head, nodes, Contents, Repr := null, [], [], {this};
      if file.None? {
        return false;
      }
      var lines := SplitLines(file.value);
      if lines == [] {
        return false;
      }
      headerOk := lines[0] == Magic;
      PushBlocks(lines);
      ReverseLinks();
      ReverseReverse(DecodeBody(lines[1..]));
    }

    /** The reading loop of `loadData`: one record per block after the
        header line, each pushed on the front of the list. */
    method PushBlocks(lines: seq<string>)
      requires Valid() && Contents == [] && |lines| >= 1
      modifies this
      ensures Valid() && fresh(Repr - old(Repr))
      ensures Contents == Reverse(DecodeBody(lines[1..]))
    {
      var pos := 1;
      ghost var k := 0;
      assert DecodeBody(lines[1..1]) == [];
      while pos < |lines|
        invariant Valid() && fresh(Repr - old(Repr))
        invariant 1 <= pos <= |lines|
        invariant pos < |lines| ==> pos == 1 + BlockSize * k
        invariant Contents == Reverse(DecodeBody(lines[1..pos]))
        decreases |lines| - pos
      {
        var record, next := ReadRecord(lines, pos, k);
        ReverseSnoc(DecodeBody(lines[1..pos]), record);
        Push(record);
        pos, k := next, k + 1;
      }
      assert lines[1..pos] == lines[1..];
    }

    /** The reversing loop of `loadData`: every link is turned around and
        the last entry becomes the first. */
    method ReverseLinks()
      requires Valid()
      modifies Repr
      ensures Valid() && Repr == old(Repr)
      ensures Contents == Reverse(old(Contents))
      ensures nodes == Reverse(old(nodes))
    {
      ghost var ns, xs := nodes, Contents;
      var curr := head;
      var prev: Node? := null;
      ghost var i := 0;
      while curr != null
        invariant 0 <= i <= |ns|
        invariant curr == (if i < |ns| then ns[i] else null)
        invariant prev == (if i == 0 then null else ns[i - 1])
        invariant forall j :: 0 <= j < |ns| ==> ns[j].data == xs[j]
        invariant forall j :: 0 < j < i ==> ns[j].next == ns[j - 1]
        invariant 0 < i ==> ns[0].next == null
        invariant forall j :: i <= j < |ns| - 1 ==> ns[j].next == ns[j + 1]
        invariant i < |ns| ==> ns[|ns| - 1].next == null
        invariant nodes == ns && Contents == xs && Repr == old(Repr)
        decreases |ns| - i
      {
        var tempNext := curr.next;
        curr.next := prev;
        prev := curr;
        curr := tempNext;
        i := i + 1;
      }
      Relink(prev, ns, xs);
    }

    /** The end of the reversal, `result = prev`: the last node visited,
        whose link now points back, heads the list of reversed links. */
    method Relink(last: Node?, ghost ns: seq<Node>, ghost xs: seq<StudentData>)
      requires this in Repr && Objects(ns) <= Repr && |ns| == |xs|
      requires forall j :: 0 <= j < |ns| ==> ns[j].data == xs[j]
      requires forall j :: 0 < j < |ns| ==> ns[j].next == ns[j - 1]
      requires ns != [] ==> ns[0].next == null
      requires forall i, j :: 0 <= i < j < |ns| ==> ns[i] != ns[j]
      requires last == (if ns == [] then null else ns[|ns| - 1])
      modifies this
      ensures Valid() && Repr == old(Repr)
      ensures Contents == Reverse(xs) && nodes == Reverse(ns)
    {
      ChainReversed(ns, xs);
      head := last;
      nodes := Reverse(ns);
      Contents := Reverse(xs);
    }
  }

  /** Saving a list and loading the file written gives a new list with
      the same records in the same order, when every record is storable. */
  method Reload(list: StudentList) returns (copy: StudentList, headerOk: bool)
    requires list.Valid()
    requires forall k :: 0 <= k < |list.Contents| ==> Storable(list.Contents[k])
    ensures copy.Valid() && headerOk
    ensures copy.Contents == list.Contents
  {
    var lines := list.Save();
    copy := new StudentList();
    headerOk := copy.Load(Some(Text(lines)));
    RoundTrip(list.Contents);
  }
}
