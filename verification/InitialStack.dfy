/** mini-loader's rewrite of the initial process stack (System V AMD64 psABI, section 3.4.1): the loader
    takes itself out of argv and re-points the auxiliary vector, in place. */
module InitialStack {
  import opened Words

  const AT_NULL: nat := 0
  const AT_PHDR: nat := 3
  const AT_PHENT: nat := 4
  const AT_PHNUM: nat := 5
  const AT_BASE: nat := 7
  const AT_ENTRY: nat := 9
  const AT_EXECFN: nat := 31
  const PHDR_SIZE: Word := 56

  datatype Aux = Aux(tag: Word, val: Word)

  /** What a program finds on its stack: argv and envp as addresses, and the auxiliary vector. */
  datatype ProcStack = ProcStack(argv: seq<Word>, env: seq<Word>, auxv: seq<Aux>)

  /** Entries of a vector are not terminators. */
  predicate WellFormed(p: ProcStack) {
    && (forall i :: 0 <= i < |p.env| ==> p.env[i] != 0)
    && (forall i :: 0 <= i < |p.auxv| ==> p.auxv[i].tag != AT_NULL)
    && |p.argv| < WORD_SPAN
  }

  function AuxWords(auxv: seq<Aux>): (r: seq<Word>)
    ensures |r| == 2 * |auxv|
  {
    if auxv == [] then [] else [auxv[0].tag, auxv[0].val] + AuxWords(auxv[1..])
  }

  /** argc, argv and envp with their terminators. */
  function Front(argv: seq<Word>, env: seq<Word>): (r: seq<Word>)
    requires |argv| < WORD_SPAN
    ensures |r| == |argv| + |env| + 3
  {
    [|argv|] + argv + [0] + env + [0]
  }

  /** The words of a stack, ending with the AT_NULL entry, whose value is immaterial. */
  function Encode(p: ProcStack, last: Word): seq<Word>
    requires |p.argv| < WORD_SPAN
  {
    Front(p.argv, p.env) + AuxWords(p.auxv) + [AT_NULL, last]
  }

  // ----- reading a stack

  function ParseVector(words: seq<Word>): Option<(seq<Word>, seq<Word>)> {
    if words == [] then None
    else if words[0] == 0 then Some(([], words[1..]))
    else
      match ParseVector(words[1..])
      case None => None
      case Some((items, rest)) => Some(([words[0]] + items, rest))
  }

  function ParseAuxv(words: seq<Word>): Option<seq<Aux>>
    decreases |words|
  {
    if |words| < 2 then None
    else if words[0] == AT_NULL then Some([])
    else
      match ParseAuxv(words[2..])
      case None => None
      case Some(auxv) => Some([Aux(words[0], words[1])] + auxv)
  }

  /** The stack as a program's start-up code reads it. */
  function Parse(words: seq<Word>): Option<ProcStack> {
    if words == [] then None
    else
      var argc: nat := words[0];
      if |words| < argc + 2 || words[argc + 1] != 0 then None
      else
        match ParseVector(words[argc + 2..])
        case None => None
        case Some((env, rest)) =>
          match ParseAuxv(rest)
          case None => None
          case Some(auxv) => Some(ProcStack(words[1..argc + 1], env, auxv))
  }

  lemma {:induction false} ParseVectorBack(items: seq<Word>, rest: seq<Word>)
    requires forall i :: 0 <= i < |items| ==> items[i] != 0
    ensures ParseVector(items + [0] + rest) == Some((items, rest))
  {
    var words := items + [0] + rest;
    if items == [] {
      assert words[1..] == rest;
    } else {
      assert words[0] == items[0] && words[1..] == items[1..] + [0] + rest;
      ParseVectorBack(items[1..], rest);
      assert [words[0]] + items[1..] == items;
    }
  }

  lemma {:induction false} ParseAuxvBack(auxv: seq<Aux>, last: Word, rest: seq<Word>)
    requires forall i :: 0 <= i < |auxv| ==> auxv[i].tag != AT_NULL
    ensures ParseAuxv(AuxWords(auxv) + [AT_NULL, last] + rest) == Some(auxv)
  {
    var words := AuxWords(auxv) + [AT_NULL, last] + rest;
    if auxv == [] {
    } else {
      assert AuxWords(auxv) == [auxv[0].tag, auxv[0].val] + AuxWords(auxv[1..]);
      assert words[0] == auxv[0].tag && words[1] == auxv[0].val;
      assert words[2..] == AuxWords(auxv[1..]) + [AT_NULL, last] + rest;
      ParseAuxvBack(auxv[1..], last, rest);
      assert [Aux(words[0], words[1])] + auxv[1..] == auxv;
    }
  }

  /** Reading back what was laid out, whatever follows it on the stack. */
  lemma ParseBack(p: ProcStack, last: Word, rest: seq<Word>)
    requires WellFormed(p)
    ensures Parse(Encode(p, last) + rest) == Some(p)
  {
    var words := Encode(p, last) + rest;
    var argc := |p.argv|;
    var tail := AuxWords(p.auxv) + [AT_NULL, last] + rest;
    assert words[argc + 2..] == p.env + [0] + tail;
    assert words[1..argc + 1] == p.argv;
    ParseVectorBack(p.env, tail);
    ParseAuxvBack(p.auxv, last, rest);
  }

  // ----- the new values

  /** What the loader puts in the handled entries. */
  datatype Target = Target(phdr: Word, phnum: Word, entry: Word, interpEntry: Option<Word>)

  function NewValue(t: Target, execfn: Word, tag: Word, val: Word): Word {
    if tag == AT_PHDR then t.phdr
    else if tag == AT_PHNUM then t.phnum
    else if tag == AT_PHENT then PHDR_SIZE
    else if tag == AT_ENTRY then t.entry
    else if tag == AT_EXECFN then execfn
    else if tag == AT_BASE then (if t.interpEntry.Some? then t.interpEntry.value else t.entry)
    else val
  }

  function UpdateAuxv(t: Target, execfn: Word, auxv: seq<Aux>): (r: seq<Aux>)
    ensures |r| == |auxv|
    ensures forall i :: 0 <= i < |auxv| ==> r[i] == Aux(auxv[i].tag, NewValue(t, execfn, auxv[i].tag, auxv[i].val))
  {
    seq(|auxv|, i requires 0 <= i < |auxv| => Aux(auxv[i].tag, NewValue(t, execfn, auxv[i].tag, auxv[i].val)))
  }

  /** Tags stay as they are and in order, and only the values of the six handled tags change. */
  lemma OnlyHandledChange(t: Target, execfn: Word, auxv: seq<Aux>, i: nat)
    requires i < |auxv|
    ensures UpdateAuxv(t, execfn, auxv)[i].tag == auxv[i].tag
    ensures auxv[i].tag !in {AT_PHDR, AT_PHNUM, AT_PHENT, AT_ENTRY, AT_EXECFN, AT_BASE}
            ==> UpdateAuxv(t, execfn, auxv)[i] == auxv[i]
  {
  }

  // ----- the rewrite in place

  /** The number of entries of the vector that starts at `from`, found by walking to its terminator. */
  method CountEnv(stack: array<Word>, from: nat, ghost env: seq<Word>) returns (count: nat)
    requires from + |env| < stack.Length && stack[from..from + |env|] == env && stack[from + |env|] == 0
    requires forall i :: 0 <= i < |env| ==> env[i] != 0
    ensures count == |env|
  {
    count := 0;
    ghost var part := stack[from..from + |env|];
    assert |env| > 0 ==> stack[from] == part[0];
    while stack[from + count] != 0
      invariant count <= |env| && (count < |env| ==> stack[from + count] == part[count])
      decreases |env| - count
    {
      count := count + 1;
      assert count < |env| ==> stack[from + count] == part[count];
    }
  }

  // Positions of an auxiliary vector that starts at `from`.

  ghost predicate HoldsAux(words: seq<Word>, from: nat, auxv: seq<Aux>, i: nat)
    requires i < |auxv|
  {
    from + 2 * i + 1 < |words| && words[from + 2 * i] == auxv[i].tag && words[from + 2 * i + 1] == auxv[i].val
  }

  lemma {:induction false} AuxWordsAt(words: seq<Word>, from: nat, auxv: seq<Aux>)
    requires from + 2 * |auxv| <= |words|
    ensures words[from..from + 2 * |auxv|] == AuxWords(auxv) <==> forall i: nat :: i < |auxv| ==> HoldsAux(words, from, auxv, i)
    decreases |auxv|
  {
    var part := words[from..from + 2 * |auxv|];
    if auxv != [] {
      var rest, from2 := auxv[1..], from + 2;
      AuxWordsAt(words, from2, rest);
      assert part == words[from..from + 2] + words[from2..from2 + 2 * |rest|];
      assert AuxWords(auxv) == [auxv[0].tag, auxv[0].val] + AuxWords(rest);
      assert words[from..from + 2] == [words[from], words[from + 1]];
      if part == AuxWords(auxv) {
        assert part[0] == auxv[0].tag && part[1] == auxv[0].val;
        assert words[from2..from2 + 2 * |rest|] == part[2..];
        assert AuxWords(rest) == AuxWords(auxv)[2..];
        forall i: nat | i < |auxv| ensures HoldsAux(words, from, auxv, i) {
          if i > 0 {
            assert HoldsAux(words, from2, rest, i - 1);
          }
        }
      } else if forall i: nat :: i < |auxv| ==> HoldsAux(words, from, auxv, i) {
        assert HoldsAux(words, from, auxv, 0);
        forall i: nat | i < |rest| ensures HoldsAux(words, from2, rest, i) {
          assert HoldsAux(words, from, auxv, i + 1);
        }
      }
    }
  }

  /** Walks the auxiliary vector at `from`, storing new values, up to AT_NULL; the argv entry that
      becomes AT_EXECFN is read from the stack. */
  method UpdateAux(stack: array<Word>, t: Target, from: nat, ghost auxv: seq<Aux>) returns (cur: nat)
    requires 3 <= from && from + 2 * |auxv| + 2 <= stack.Length
    requires stack[from..from + 2 * |auxv|] == AuxWords(auxv) && stack[from + 2 * |auxv|] == AT_NULL
    requires forall i :: 0 <= i < |auxv| ==> auxv[i].tag != AT_NULL
    modifies stack
    ensures cur == from + 2 * |auxv|
    ensures stack[..from] == old(stack[..from])
    ensures stack[from..cur] == AuxWords(UpdateAuxv(t, old(stack[2]), auxv))
    ensures stack[cur..] == old(stack[cur..])
  {
    ghost var execfn := stack[2];
    ghost var done := UpdateAuxv(t, execfn, auxv);
    ghost var k: nat := 0;
    ghost var before := stack[..];
    AuxWordsAt(before, from, auxv);
    cur := from;
    while stack[cur] != AT_NULL
      invariant k <= |auxv| && cur == from + 2 * k
      invariant k < |auxv| ==> HoldsAux(before, from, auxv, k)
      invariant forall i: nat :: i < k ==> HoldsAux(stack[..], from, done, i)
      invariant stack[..from] == before[..from] && stack[cur..] == before[cur..]
      decreases |auxv| - k
    {
      ghost var was := stack[..];
      assert was[cur..][0] == before[cur] && was[cur..][1] == before[cur + 1];
      stack[cur + 1] := NewValue(t, stack[2], stack[cur], stack[cur + 1]);
      assert stack[..] == was[cur + 1 := stack[cur + 1]];
      StoreKeepsAux(was, stack[..], from, done, k, cur);
      cur := cur + 2;
      k := k + 1;
      assert stack[cur..] == was[cur - 2..][2..];
    }
    AuxWordsAt(stack[..], from, done);
  }

  lemma StoreKeepsAux(was: seq<Word>, now: seq<Word>, from: nat, done: seq<Aux>, k: nat, cur: nat)
    requires k <= |done| && cur == from + 2 * k && cur + 1 < |was| == |now| && now == was[cur + 1 := now[cur + 1]]
    requires forall i: nat :: i < k ==> HoldsAux(was, from, done, i)
    ensures forall i: nat :: i < k ==> HoldsAux(now, from, done, i)
  {
    forall i: nat | i < k ensures HoldsAux(now, from, done, i) {
      assert HoldsAux(was, from, done, i);
    }
  }

  /** `core::ptr::copy` of n words one place down: source and destination overlap. */
  method CopyDown(stack: array<Word>, n: nat)
    requires n < stack.Length
    modifies stack
    ensures forall j :: 0 <= j < n ==> stack[j] == old(stack[j + 1])
    ensures forall j :: n <= j < stack.Length ==> stack[j] == old(stack[j])
  {
    ghost var before := stack[..];
    for i := 0 to n
      invariant forall j :: 0 <= j < i ==> stack[j] == before[j + 1]
      invariant forall j :: i <= j < stack.Length ==> stack[j] == before[j]
    {
      stack[i] := stack[i + 1];
    }
  }

  /** argc, the index of the auxiliary vector, after argv, envp and their terminators, and the word taken
      for the name of the file to load. */
  method FindAuxv(stack: array<Word>, ghost p: ProcStack, ghost last: Word, ghost rest: seq<Word>)
    returns (argc: Word, auxv: nat, name: Word)
    requires WellFormed(p) && stack[..] == Encode(p, last) + rest
    ensures argc == |p.argv| && auxv == |p.argv| + |p.env| + 3 && name == FileName(p)
  {
    Layout(p, last, rest);
    ghost var words := stack[..];
    argc := stack[0];
    var env: nat := argc as nat + 2;
    assert stack[env..env + |p.env|] == words[env..env + |p.env|];
    var envCount := CountEnv(stack, env, p.env);
    auxv := env + envCount + 1;
    name := stack[2];
  }

  /** The word the loader takes for its argument, two above argc: the second element of argv; without any
      argv it is the first one of the environment or, without that, its terminator. */
  function FileName(p: ProcStack): Word {
    if |p.argv| >= 2 then p.argv[1] else if p.argv == [] && p.env != [] then p.env[0] else 0
  }

  /** The auxiliary vector gets its new values; the index of its terminator comes back. */
  method Retarget(stack: array<Word>, t: Target, auxv: nat, ghost p: ProcStack, ghost last: Word, ghost rest: seq<Word>)
    returns (cur: nat)
    requires WellFormed(p) && stack[..] == Encode(p, last) + rest && auxv == |p.argv| + |p.env| + 3
    modifies stack
    ensures cur == auxv + 2 * |p.auxv|
    ensures stack[..] == Encode(ProcStack(p.argv, p.env, UpdateAuxv(t, FileName(p), p.auxv)), last) + rest
  {
    ghost var words := stack[..];
    AuxLayout(words, p, last, rest);
    assert stack[auxv..auxv + 2 * |p.auxv|] == words[auxv..auxv + 2 * |p.auxv|];
    cur := UpdateAux(stack, t, auxv, p.auxv);
    Retargeted(words, stack[..], p, last, rest, UpdateAuxv(t, FileName(p), p.auxv));
  }

  lemma AuxLayout(words: seq<Word>, p: ProcStack, last: Word, rest: seq<Word>)
    requires WellFormed(p) && words == Encode(p, last) + rest
    ensures var from := |p.argv| + |p.env| + 3; var cur := from + 2 * |p.auxv|;
            && cur + 2 <= |words| && words[from..cur] == AuxWords(p.auxv) && words[cur] == AT_NULL && words[2] == FileName(p)
  {
    Layout(p, last, rest);
  }

  lemma Retargeted(before: seq<Word>, after: seq<Word>, p: ProcStack, last: Word, rest: seq<Word>, auxv: seq<Aux>)
    requires |p.argv| < WORD_SPAN && before == Encode(p, last) + rest && |after| == |before| && |auxv| == |p.auxv|
    requires var from := |p.argv| + |p.env| + 3; var cur := from + 2 * |auxv|;
             && cur <= |after| && after[..from] == before[..from]
             && after[from..cur] == AuxWords(auxv) && after[cur..] == before[cur..]
    ensures after == Encode(ProcStack(p.argv, p.env, auxv), last) + rest
  {
    var front, tail := Front(p.argv, p.env), [AT_NULL, last] + rest;
    EncodeParts(p, last, rest);
    Splice(front, AuxWords(p.auxv), tail, AuxWords(auxv), before, after);
    EncodeParts(ProcStack(p.argv, p.env, auxv), last, rest);
  }

  lemma EncodeParts(p: ProcStack, last: Word, rest: seq<Word>)
    requires |p.argv| < WORD_SPAN
    ensures Encode(p, last) + rest == Front(p.argv, p.env) + AuxWords(p.auxv) + ([AT_NULL, last] + rest)
  {
  }

  /** Replacing the middle of three parts by one of the same length. */
  lemma Splice(a: seq<Word>, b: seq<Word>, c: seq<Word>, d: seq<Word>, before: seq<Word>, after: seq<Word>)
    requires before == a + b + c && |d| == |b| && |after| == |before|
    requires after[..|a|] == before[..|a|] && after[|a|..|a| + |b|] == d && after[|a| + |b|..] == before[|a| + |b|..]
    ensures after == a + d + c
  {
    assert before[..|a|] == a && before[|a| + |b|..] == c;
    assert after == after[..|a|] + after[|a|..|a| + |b|] + after[|a| + |b|..];
  }

  /** The n words after argc move down over it, and argc is stored anew. */
  method MoveDown(stack: array<Word>, argc: Word, n: nat)
    requires 1 <= n < stack.Length
    modifies stack
    ensures stack[..] == [argc] + old(stack[..])[2..n + 1] + old(stack[..])[n..]
  {
    ghost var before := stack[..];
    CopyDown(stack, n);
    stack[0] := argc;
    MovedDown(before, stack[..], argc, n);
  }

  lemma MovedDown(before: seq<Word>, after: seq<Word>, argc: Word, n: nat)
    requires 1 <= n < |before| == |after| && after[0] == argc
    requires forall j :: 1 <= j < n ==> after[j] == before[j + 1]
    requires forall j :: n <= j < |after| ==> after[j] == before[j]
    ensures after == [argc] + before[2..n + 1] + before[n..]
  {
  }

  /** Everything from argv to the end of the auxiliary vector moves down: the first argument is gone. */
  lemma FirstDropped(before: seq<Word>, size: nat, p: ProcStack, last: Word, rest: seq<Word>)
    requires 2 <= |p.argv| < WORD_SPAN && before == Encode(p, last) + rest
    requires size == |p.argv| + |p.env| + 4 + 2 * |p.auxv|
    ensures size + 1 <= |before|
    ensures [|p.argv| - 1] + before[2..size + 1] + before[size..]
            == Encode(ProcStack(p.argv[1..], p.env, p.auxv), last) + [last] + rest
  {
    var front := Front(p.argv, p.env);
    var tail := AuxWords(p.auxv) + [AT_NULL, last];
    assert before == front + tail + rest;
    assert front[2..] == p.argv[1..] + [0] + p.env + [0];
    assert before[2..size + 1] == front[2..] + tail;
    assert before[size..] == [last] + rest;
    assert [|p.argv| - 1] + front[2..] == Front(p.argv[1..], p.env);
  }

  /** Without any argv everything from the environment on moves down over argc and its terminator. */
  lemma NoneDropped(before: seq<Word>, size: nat, p: ProcStack, last: Word, rest: seq<Word>)
    requires p.argv == [] && before == Encode(p, last) + rest
    requires size == |p.env| + 4 + 2 * |p.auxv|
    ensures size + 1 <= |before|
    ensures before[2..size + 1] + before[size..] == p.env + [0] + AuxWords(p.auxv) + [AT_NULL, last] + [last] + rest
  {
    var tail := AuxWords(p.auxv) + [AT_NULL, last];
    assert before == [0, 0] + (p.env + [0] + tail) + rest;
    assert before[2..size + 1] == p.env + [0] + tail;
    assert before[size..] == [last] + rest;
  }

  /** The words that a program starts with: one argument less or, without any argv, a count that has
      wrapped below zero, right before the environment. */
  function Dropped(p: ProcStack, last: Word): seq<Word>
    requires |p.argv| < WORD_SPAN
  {
    if p.argv != [] then Encode(ProcStack(p.argv[1..], p.env, p.auxv), last)
    else [WORD_SPAN - 1] + (p.env + [0] + AuxWords(p.auxv) + [AT_NULL, last])
  }

  lemma MovedIsDropped(before: seq<Word>, size: nat, p: ProcStack, last: Word, rest: seq<Word>)
    requires |p.argv| != 1 && |p.argv| < WORD_SPAN && before == Encode(p, last) + rest
    requires size == |p.argv| + |p.env| + 4 + 2 * |p.auxv|
    ensures size + 1 <= |before|
    ensures [Wrap(|p.argv| - 1)] + before[2..size + 1] + before[size..] == Dropped(p, last) + [last] + rest
  {
    if p.argv == [] {
      NoneDropped(before, size, p, last, rest);
      Regroup([WORD_SPAN - 1], before[2..size + 1], before[size..]);
      Regroup(p.env + [0] + AuxWords(p.auxv) + [AT_NULL, last], [last], rest);
      Regroup([WORD_SPAN - 1], p.env + [0] + AuxWords(p.auxv) + [AT_NULL, last], [last] + rest);
      Regroup(Dropped(p, last), [last], rest);
    } else {
      FirstDropped(before, size, p, last, rest);
    }
  }

  lemma Regroup(a: seq<Word>, b: seq<Word>, c: seq<Word>)
    ensures a + b + c == a + (b + c)
  {
  }

  /** The move, from argc and the number of words up to the end of the auxiliary vector. */
  method DropFirst(stack: array<Word>, argc: Word, n: nat, ghost q: ProcStack, ghost last: Word, ghost rest: seq<Word>)
    requires |q.argv| == argc != 1 && n == argc as nat + |q.env| + 4 + 2 * |q.auxv| && stack[..] == Encode(q, last) + rest
    modifies stack
    ensures stack[..] == Dropped(q, last) + [last] + rest
  {
    MovedIsDropped(stack[..], n, q, last, rest);
    MoveDown(stack, Wrap(argc as int - 1), n);
  }

  /** The two steps of the rewrite: new auxiliary values, then everything after argc one place down. */
  method RetargetAndDrop(stack: array<Word>, t: Target, argc: Word, auxv: nat, ghost p: ProcStack, ghost last: Word, ghost rest: seq<Word>)
    requires WellFormed(p) && stack[..] == Encode(p, last) + rest
    requires argc == |p.argv| && argc != 1 && auxv == |p.argv| + |p.env| + 3
    modifies stack
    ensures stack[..] == Dropped(ProcStack(p.argv, p.env, UpdateAuxv(t, FileName(p), p.auxv)), last) + [last] + rest
  {
    var cur := Retarget(stack, t, auxv, p, last, rest);
    DropFirst(stack, argc, cur + 1, ProcStack(p.argv, p.env, UpdateAuxv(t, FileName(p), p.auxv)), last, rest);
  }

  /** `rust_main`, from the stack scan to the jump; `load` is what comes of loading the file named by a
      word, if it does not panic. False is a panic: for a missing argument, or from the load. The words
      after the auxiliary vector belong to the strings and stay as they are. */
  method RewriteStack(stack: array<Word>, load: Word -> Option<Target>, ghost p: ProcStack, ghost last: Word, ghost rest: seq<Word>)
    returns (ok: bool)
    requires WellFormed(p) && stack[..] == Encode(p, last) + rest
    modifies stack
    ensures ok <==> |p.argv| != 1 && load(FileName(p)).Some?
    ensures !ok ==> stack[..] == old(stack[..])
    ensures ok ==>
              var auxv := UpdateAuxv(load(FileName(p)).value, FileName(p), p.auxv);
              stack[..] == Dropped(ProcStack(p.argv, p.env, auxv), last) + [last] + rest
  {
    var argc, auxv, name := FindAuxv(stack, p, last, rest);
    if argc == 1 {
      return false;
    }
    var loaded := load(name);
    if loaded.None? {
      return false;
    }
    RetargetAndDrop(stack, loaded.value, argc, auxv, p, last, rest);
    return true;
  }

  /** Where the parts of an encoded stack lie. */
  lemma Layout(p: ProcStack, last: Word, rest: seq<Word>)
    requires WellFormed(p)
    ensures var words := Encode(p, last) + rest; var n, e, x := |p.argv|, |p.env|, |p.auxv|;
            && |words| == n + e + 3 + 2 * x + 2 + |rest|
            && words[0] == n && words[1..n + 1] == p.argv && words[n + 1] == 0
            && words[n + 2..n + 2 + e] == p.env && words[n + 2 + e] == 0
            && words[n + e + 3..n + e + 3 + 2 * x] == AuxWords(p.auxv)
            && words[n + e + 3 + 2 * x] == AT_NULL && words[n + e + 4 + 2 * x] == last
            && words[n + e + 5 + 2 * x..] == rest
            && words[2] == FileName(p)
  {
  }

  /** What the program must find in one entry of its auxiliary vector, by the tag numbers of the psABI:
      the file's own headers (3, 5 and 4) and entry point (9), the argument that names it (31), and at 7
      the entry point of its interpreter or, without one, its own. Other entries are passed on. */
  ghost predicate PassedOn(t: Target, file: Word, before: Aux, after: Aux) {
    && after.tag == before.tag
    && (before.tag == 3 ==> after.val == t.phdr)
    && (before.tag == 5 ==> after.val == t.phnum)
    && (before.tag == 4 ==> after.val == 56)
    && (before.tag == 9 ==> after.val == t.entry)
    && (before.tag == 31 ==> after.val == file)
    && (before.tag == 7 && t.interpEntry.Some? ==> after.val == t.interpEntry.value)
    && (before.tag == 7 && t.interpEntry.None? ==> after.val == t.entry)
    && (before.tag !in {3, 4, 5, 7, 9, 31} ==> after.val == before.val)
  }

  /** After the rewrite the program's own start-up code reads one argument less and without the first,
      the same environment, and the same auxiliary tags, each with the value it must have. */
  method StartProgram(stack: array<Word>, load: Word -> Option<Target>, ghost p: ProcStack, ghost last: Word, ghost rest: seq<Word>)
    requires WellFormed(p) && |p.argv| >= 2 && load(p.argv[1]).Some? && stack[..] == Encode(p, last) + rest
    modifies stack
    ensures Parse(old(stack[..])) == Some(p)
    ensures var q := Parse(stack[..]);
            && q.Some? && q.value.argv == p.argv[1..] && q.value.env == p.env && |q.value.auxv| == |p.auxv|
            && forall i :: 0 <= i < |p.auxv| ==> PassedOn(load(p.argv[1]).value, p.argv[1], p.auxv[i], q.value.auxv[i])
  {
    ParseBack(p, last, rest);
    var ok := RewriteStack(stack, load, p, last, rest);
    ghost var auxv := UpdateAuxv(load(p.argv[1]).value, p.argv[1], p.auxv);
    ParseDropped(stack[..], ProcStack(p.argv, p.env, auxv), last, rest);
    forall i | 0 <= i < |p.auxv| ensures PassedOn(load(p.argv[1]).value, p.argv[1], p.auxv[i], auxv[i]) {
      NewValueIsPassedOn(load(p.argv[1]).value, p.argv[1], p.auxv[i]);
    }
  }

  lemma NewValueIsPassedOn(t: Target, file: Word, a: Aux)
    ensures PassedOn(t, file, a, Aux(a.tag, NewValue(t, file, a.tag, a.val)))
  {
  }

  /** A stack, word for word: argc, two arguments, a terminator, a variable, a terminator, a tag, its value
      and the last entry. */
  lemma StackByWords(a: Word, b: Word, e: Word, tag: Word, val: Word, last: Word)
    ensures Encode(ProcStack([a, b], [e], [Aux(tag, val)]), last) == [2, a, b, 0, e, 0, tag, val, 0, last]
  {
    assert AuxWords([Aux(tag, val)]) == [tag, val] + AuxWords([]);
  }

  lemma ParseDropped(words: seq<Word>, p: ProcStack, last: Word, rest: seq<Word>)
    requires WellFormed(p) && p.argv != [] && words == Dropped(p, last) + [last] + rest
    ensures Parse(words) == Some(ProcStack(p.argv[1..], p.env, p.auxv))
  {
    var q := ProcStack(p.argv[1..], p.env, p.auxv);
    ParseBack(q, last, [last] + rest);
    Regroup(Encode(q, last), [last], rest);
  }
}
