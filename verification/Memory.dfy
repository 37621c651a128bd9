/**
 The memory routines of lib.c on a flat memory whose indices are addresses: byte phases around
 a phase of aligned 32-bit words, and the overlap-safe move.
 */
module Memory {
  import opened Bytes

  /** memory with its bytes from dest on replaced by those of bytes. */
  ghost predicate Written(memory: array<byte>, was: seq<byte>, dest: int, bytes: seq<byte>)
    requires 0 <= dest && dest + |bytes| <= |was|
    reads memory
  {
    memory.Length == |was| && forall i {:trigger memory[i]} :: 0 <= i < |was| ==>
      memory[i] == if dest <= i < dest + |bytes| then bytes[i - dest] else was[i]
  }

  // ---------------------------------------------------------------- memcpy, whatever overlaps

  /** One move of u bytes: all are read before any is written. */
  function UnitCopied(mem: seq<byte>, dest: int, src: int, u: nat): (r: seq<byte>)
    requires 0 <= dest && 0 <= src && dest + u <= |mem| && src + u <= |mem|
    ensures |r| == |mem|
  {
    mem[..dest] + mem[src..src + u] + mem[dest + u..]
  }

  lemma UnitAt(mem: seq<byte>, dest: int, src: int, u: nat, i: int)
    requires 0 <= dest && 0 <= src && dest + u <= |mem| && src + u <= |mem| && 0 <= i < |mem|
    ensures UnitCopied(mem, dest, src, u)[i] == if dest <= i < dest + u then mem[src + (i - dest)] else mem[i]
  {
  }

  /** Moves of given sizes, one after the other, upwards. */
  datatype Moves = Start | Then(before: Moves, u: nat)

  function Sum(ms: Moves): nat {
    if ms.Start? then 0 else Sum(ms.before) + ms.u
  }

  predicate InBounds(mem: seq<byte>, dest: int, src: int, n: int) {
    0 <= dest && 0 <= src && 0 <= n && dest + n <= |mem| && src + n <= |mem|
  }

  function Done(mem: seq<byte>, dest: int, src: int, ms: Moves): (r: seq<byte>)
    requires InBounds(mem, dest, src, Sum(ms))
    ensures |r| == |mem|
  {
    if ms.Start? then mem
    else UnitCopied(Done(mem, dest, src, ms.before), dest + Sum(ms.before), src + Sum(ms.before), ms.u)
  }

  function Singles(ms: Moves, k: nat): (r: Moves)
    ensures Sum(r) == Sum(ms) + k
  {
    if k == 0 then ms else Then(Singles(ms, k - 1), 1)
  }

  function Words(ms: Moves, k: nat): (r: Moves)
    ensures Sum(r) == Sum(ms) + 4 * k
  {
    if k == 0 then ms else Then(Words(ms, k - 1), 4)
  }

  /** The number of bytes to an aligned destination. */
  function Head(dest: nat, n: nat): (k: nat)
    ensures k <= n
  {
    Min(n, (4 - dest % 4) % 4)
  }

  /** Single bytes up to an aligned destination, then whole words, then the rest byte by byte. */
  function MemcpyMoves(dest: nat, n: nat): (ms: Moves)
    ensures Sum(ms) == n
  {
    var head := Head(dest, n);
    Singles(Words(Singles(Start, head), (n - head) / 4), (n - head) % 4)
  }

  /** The destination lies inside the rest of the source. */
  predicate Upward(dest: int, src: int, n: int) {
    src < dest < src + n
  }

  lemma NoMove(mem: seq<byte>, dest: int, src: int)
    requires InBounds(mem, dest, src, 0)
    ensures UnitCopied(mem, dest, src, 0) == mem
  {
  }

  lemma TwoMoves(mem: seq<byte>, dest: int, src: int, o: nat, u: nat)
    requires InBounds(mem, dest, src, o + u) && !Upward(dest, src, o + u)
    ensures UnitCopied(UnitCopied(mem, dest, src, o), dest + o, src + o, u) == UnitCopied(mem, dest, src, o + u)
  {
    var m := UnitCopied(mem, dest, src, o);
    var two, one := UnitCopied(m, dest + o, src + o, u), UnitCopied(mem, dest, src, o + u);
    hide UnitCopied;
    forall i | 0 <= i < |mem| ensures two[i] == one[i] {
      UnitAt(m, dest + o, src + o, u, i);
      UnitAt(mem, dest, src, o + u, i);
      UnitAt(mem, dest, src, o, i);
      if dest + o <= i < dest + o + u {
        UnitAt(mem, dest, src, o, src + (i - dest));
      }
    }
  }

  /** Without upward overlap any sequence of moves does what a single one would. */
  lemma {:induction false} MovesAreRight(mem: seq<byte>, dest: int, src: int, ms: Moves)
    requires InBounds(mem, dest, src, Sum(ms)) && !Upward(dest, src, Sum(ms))
    ensures Done(mem, dest, src, ms) == UnitCopied(mem, dest, src, Sum(ms))
  {
    hide UnitCopied;
    if ms.Start? {
      NoMove(mem, dest, src);
    } else {
      assert !Upward(dest, src, Sum(ms.before));
      TwoMoves(mem, dest, src, Sum(ms.before), ms.u);
      hide Upward;
      MovesAreRight(mem, dest, src, ms.before);
    }
  }

  /** Memory that is zero but for byte x. */
  predicate ZeroBut(mem: seq<byte>, x: int) {
    forall i :: 0 <= i < |mem| && i != x ==> mem[i] == 0
  }

  /** Moves that do not read byte x but write it leave nothing but zeros. */
  lemma {:induction false} MovesLose(mem: seq<byte>, dest: int, src: int, ms: Moves, x: int)
    requires InBounds(mem, dest, src, Sum(ms)) && ZeroBut(mem, x) && src + Sum(ms) <= x < |mem|
    ensures var r := Done(mem, dest, src, ms); ZeroBut(r, x) && (dest <= x < dest + Sum(ms) ==> r[x] == 0)
  {
    if ms.Then? {
      var m, o := Done(mem, dest, src, ms.before), Sum(ms.before);
      MovesLose(mem, dest, src, ms.before, x);
      hide UnitCopied;
      forall i | 0 <= i < |mem| && (i != x || dest <= x < dest + Sum(ms)) ensures Done(mem, dest, src, ms)[i] == 0 {
        UnitAt(m, dest + o, src + o, ms.u, i);
      }
    }
  }

  /** A last move that reads a byte an earlier one has overwritten goes wrong. */
  lemma LastMoveFails(mem: seq<byte>, dest: int, src: int, ms: Moves, x: int)
    requires ms.Then? && InBounds(mem, dest, src, Sum(ms))
    requires dest <= x < dest + Sum(ms.before) && src + Sum(ms.before) <= x < src + Sum(ms)
    requires ZeroBut(mem, x) && mem[x] == 1
    ensures Done(mem, dest, src, ms) != UnitCopied(mem, dest, src, Sum(ms))
  {
    hide UnitCopied, ZeroBut, Done, Sum;
    DoneThen(mem, dest, src, ms);
    MovesLose(mem, dest, src, ms.before, x);
    DifferentByte(mem, Done(mem, dest, src, ms.before), dest, src, Sum(ms.before), ms.u, x);
  }

  lemma DoneThen(mem: seq<byte>, dest: int, src: int, ms: Moves)
    requires ms.Then? && InBounds(mem, dest, src, Sum(ms))
    ensures Sum(ms) == Sum(ms.before) + ms.u
    ensures Done(mem, dest, src, ms) ==
            UnitCopied(Done(mem, dest, src, ms.before), dest + Sum(ms.before), src + Sum(ms.before), ms.u)
  {
    hide UnitCopied;
  }

  lemma DifferentByte(mem: seq<byte>, m: seq<byte>, dest: int, src: int, o: nat, u: nat, x: int)
    requires |m| == |mem| && InBounds(mem, dest, src, o + u) && src + o <= x < src + o + u && m[x] != mem[x]
    ensures UnitCopied(m, dest + o, src + o, u) != UnitCopied(mem, dest, src, o + u)
  {
    hide UnitCopied;
    UnitAt(m, dest + o, src + o, u, dest + (x - src));
    UnitAt(mem, dest, src, o + u, dest + (x - src));
  }

  /** The copy is made in one move: an aligned word, or nothing to do but a byte. */
  predicate OneMove(dest: int, n: int) {
    n <= 1 || (dest % 4 == 0 && n == 4)
  }

  lemma LastMove(dest: nat, n: nat)
    requires !OneMove(dest, n)
    ensures var ms := MemcpyMoves(dest, n); ms.Then? && 0 < ms.u && 0 < Sum(ms.before) && Sum(ms) == n
  {
    var head := Head(dest, n);
    var words := (n - head) / 4;
    var tail := (n - head) % 4;
    var a := Singles(Start, head);
    var b := Words(a, words);
    assert tail > 0 ==> MemcpyMoves(dest, n) == Then(Singles(b, tail - 1), 1);
    assert tail == 0 && words > 0 ==> MemcpyMoves(dest, n) == Then(Words(a, words - 1), 4);
    assert tail == 0 && words == 0 ==> MemcpyMoves(dest, n) == Then(Singles(Start, head - 1), 1);
  }

  /** memcpy does what a single move of n bytes would, on every memory of this size. */
  ghost predicate CopiesRight(size: nat, dest: nat, src: nat, n: nat)
    requires dest + n <= size && src + n <= size
  {
    forall mem: seq<byte> | |mem| == size ::
      Done(mem, dest, src, MemcpyMoves(dest, n)) == UnitCopied(mem, dest, src, n)
  }

  lemma UpwardFails(size: nat, dest: nat, src: nat, n: nat)
    requires Upward(dest, src, n) && 0 <= src && dest + n <= size && !OneMove(dest, n)
    ensures !CopiesRight(size, dest, src, n)
  {
    var ms := MemcpyMoves(dest, n);
    LastMove(dest, n);
    hide MemcpyMoves, UnitCopied, Done, OneMove;
    var o := Sum(ms.before);
    var x := if ms.u <= dest - src then src + n - 1 else dest + o - 1;
    assert dest <= x < dest + o && src + o <= x < src + n;
    var mem := OneByte(size, x);
    hide Sum, Upward;
    LastMoveFails(mem, dest, src, ms, x);
  }

  function OneByte(size: nat, x: int): (mem: seq<byte>)
    requires 0 <= x < size
    ensures |mem| == size && ZeroBut(mem, x) && mem[x] == 1
  {
    seq(size, i => if i == x then 1 else 0)
  }

  lemma OneMoveIsRight(mem: seq<byte>, dest: nat, src: nat)
    requires dest % 4 == 0 && InBounds(mem, dest, src, 4)
    ensures Done(mem, dest, src, MemcpyMoves(dest, 4)) == UnitCopied(mem, dest, src, 4)
  {
    assert Head(dest, 4) == 0 && Singles(Start, 0) == Start;
    assert Words(Start, 1) == Then(Words(Start, 0), 4);
    hide UnitCopied;
  }

  lemma CopiedRight(mem: seq<byte>, dest: nat, src: nat, n: nat)
    requires InBounds(mem, dest, src, n) && (!Upward(dest, src, n) || OneMove(dest, n))
    ensures Done(mem, dest, src, MemcpyMoves(dest, n)) == UnitCopied(mem, dest, src, n)
  {
    if !Upward(dest, src, n) {
      hide UnitCopied, Done, MemcpyMoves;
      MovesAreRight(mem, dest, src, MemcpyMoves(dest, n));
    } else {
      OneMoveIsRight(mem, dest, src);
    }
  }

  /**
   memcpy copies right on every memory if and only if the destination is not inside the rest of
   the source, or a single move does it all.
   */
  lemma MemcpyExact(size: nat, dest: nat, src: nat, n: nat)
    requires dest + n <= size && src + n <= size
    ensures CopiesRight(size, dest, src, n) <==> !Upward(dest, src, n) || OneMove(dest, n)
  {
    hide UnitCopied, Done, MemcpyMoves, Upward, OneMove;
    if !Upward(dest, src, n) || OneMove(dest, n) {
      forall mem: seq<byte> | |mem| == size
        ensures Done(mem, dest, src, MemcpyMoves(dest, n)) == UnitCopied(mem, dest, src, n)
      {
        CopiedRight(mem, dest, src, n);
      }
    } else {
      UpwardFails(size, dest, src, n);
    }
  }

  // ---------------------------------------------------------------- lib.c

  method Memset(memory: array<byte>, s: int, c: int, n: int)
    requires 0 <= s && 0 <= n && s + n <= memory.Length
    modifies memory
    ensures Written(memory, old(memory[..]), s, seq(n, _ => c % 0x100))
  {
    var al := c % 0x100;
    var edi, ecx := s, n;
    while ecx != 0 && edi % 4 != 0
      invariant 0 <= ecx && edi + ecx == s + n && s <= edi
      invariant forall i :: 0 <= i < memory.Length ==> memory[i] == if s <= i < edi then al else old(memory[i])
    {
      memory[edi] := al;
      edi, ecx := edi + 1, ecx - 1;
    }
    var edx := ecx % 4;
    ecx := ecx / 4;
    while ecx != 0
      invariant 0 <= ecx && 0 <= edx < 4 && edi + 4 * ecx + edx == s + n && s <= edi
      invariant forall i :: 0 <= i < memory.Length ==> memory[i] == if s <= i < edi then al else old(memory[i])
    {
      memory[edi], memory[edi + 1], memory[edi + 2], memory[edi + 3] := al, al, al, al;
      edi, ecx := edi + 4, ecx - 1;
    }
    while edx != 0
      invariant 0 <= edx && edi + edx == s + n && s <= edi
      invariant forall i :: 0 <= i < memory.Length ==> memory[i] == if s <= i < edi then al else old(memory[i])
    {
      memory[edi] := al;
      edi, edx := edi + 1, edx - 1;
    }
  }

  /** memory is what it was after these moves. */
  ghost predicate Reached(memory: array<byte>, was: seq<byte>, dest: int, src: int, ms: Moves)
    reads memory
  {
    InBounds(was, dest, src, Sum(ms)) && memory[..] == Done(was, dest, src, ms)
  }

  method MoveByte(memory: array<byte>, dest: int, src: int, done: int, ghost was: seq<byte>, ghost ms: Moves)
    requires Reached(memory, was, dest, src, ms) && done == Sum(ms) && InBounds(was, dest, src, done + 1)
    modifies memory
    ensures Reached(memory, was, dest, src, Then(ms, 1))
  {
    hide UnitCopied;
    Movb(memory, dest + done, src + done);
  }

  method Movb(memory: array<byte>, edi: int, esi: int)
    requires 0 <= edi < memory.Length && 0 <= esi < memory.Length
    modifies memory
    ensures memory[..] == UnitCopied(old(memory[..]), edi, esi, 1)
  {
    ghost var was := memory[..];
    memory[edi] := memory[esi];
    hide UnitCopied;
    forall i | 0 <= i < |was| ensures memory[i] == UnitCopied(was, edi, esi, 1)[i] {
      UnitAt(was, edi, esi, 1, i);
    }
  }

  method MoveWord(memory: array<byte>, dest: int, src: int, done: int, ghost was: seq<byte>, ghost ms: Moves)
    requires Reached(memory, was, dest, src, ms) && done == Sum(ms) && InBounds(was, dest, src, done + 4)
    modifies memory
    ensures Reached(memory, was, dest, src, Then(ms, 4))
  {
    hide UnitCopied;
    Movsl(memory, dest + done, src + done);
  }

  /** All four bytes are read before any is written. */
  method Movsl(memory: array<byte>, edi: int, esi: int)
    requires 0 <= edi && edi + 4 <= memory.Length && 0 <= esi && esi + 4 <= memory.Length
    modifies memory
    ensures memory[..] == UnitCopied(old(memory[..]), edi, esi, 4)
  {
    ghost var was := memory[..];
    memory[edi], memory[edi + 1], memory[edi + 2], memory[edi + 3] :=
      memory[esi], memory[esi + 1], memory[esi + 2], memory[esi + 3];
    hide UnitCopied;
    forall i | 0 <= i < |was| ensures memory[i] == UnitCopied(was, edi, esi, 4)[i] {
      UnitAt(was, edi, esi, 4, i);
    }
  }

  /** The loops at .memcpy_top and .memcpy_bottom: single bytes, at most limit, up to an aligned address if asked. */
  method CopyBytes(memory: array<byte>, dest: int, src: int, done: int, limit: int, align: bool, ghost was: seq<byte>,
                   ghost ms: Moves)
    returns (k: int)
    requires Reached(memory, was, dest, src, ms) && done == Sum(ms)
    requires 0 <= limit && InBounds(was, dest, src, done + limit)
    modifies memory
    ensures k == if align then Head(dest + done, limit) else limit
    ensures Reached(memory, was, dest, src, Singles(ms, k))
  {
    hide Reached, Head, Sum;
    k := 0;
    HeadEnds(dest + done, limit, k);
    while k != limit && !(align && (dest + done + k) % 4 == 0)
      invariant 0 <= k <= limit && (align ==> k <= Head(dest + done, limit))
      invariant align ==> (k == Head(dest + done, limit) <==> k == limit || (dest + done + k) % 4 == 0)
      invariant Reached(memory, was, dest, src, Singles(ms, k))
      decreases limit - k
    {
      MoveByte(memory, dest, src, done + k, was, Singles(ms, k));
      k := k + 1;
      HeadEnds(dest + done, limit, k);
    }
  }

  /** The loop for the head ends at its end. */
  lemma HeadEnds(to: nat, limit: nat, k: nat)
    ensures k <= Head(to, limit) ==> (k == Head(to, limit) <==> k == limit || (to + k) % 4 == 0)
  {
  }

  /** The loop at .memcpy_aligned: whole words. */
  method CopyWords(memory: array<byte>, dest: int, src: int, done: int, words: int, ghost was: seq<byte>,
                   ghost ms: Moves)
    requires Reached(memory, was, dest, src, ms) && done == Sum(ms)
    requires 0 <= words && InBounds(was, dest, src, done + 4 * words)
    modifies memory
    ensures Reached(memory, was, dest, src, Words(ms, words))
  {
    hide Reached, Sum;
    var ecx, k := words, done;
    while ecx != 0
      invariant 0 <= ecx <= words && k == done + 4 * (words - ecx)
      invariant Reached(memory, was, dest, src, Words(ms, words - ecx))
    {
      MoveWord(memory, dest, src, k, was, Words(ms, words - ecx));
      ecx, k := ecx - 1, k + 4;
    }
  }

  /** The three phases. */
  method CopyAll(memory: array<byte>, dest: int, src: int, n: int)
    requires 0 <= dest && 0 <= src && 0 <= n && dest + n <= memory.Length && src + n <= memory.Length
    modifies memory
    ensures Reached(memory, old(memory[..]), dest, src, MemcpyMoves(dest, n))
  {
    ghost var was := memory[..];
    assert Reached(memory, was, dest, src, Start);
    hide Reached, Singles, Words, Head, MemcpyMoves;
    var k := CopyBytes(memory, dest, src, 0, n, true, was, Start);
    ghost var head := Singles(Start, k);
    var words, rest := (n - k) / 4, (n - k) % 4;
    Phases(dest, n, k, words, rest);
    CopyWords(memory, dest, src, k, words, was, head);
    var _ := CopyBytes(memory, dest, src, k + 4 * words, rest, false, was, Words(head, words));
  }

  lemma Phases(dest: nat, n: nat, k: nat, words: nat, rest: nat)
    requires k == Head(dest, n) && words == (n - k) / 4 && rest == (n - k) % 4
    ensures k + 4 * words + rest == n && MemcpyMoves(dest, n) == Singles(Words(Singles(Start, k), words), rest)
  {
  }

  /** Copies upwards for any overlap; MemcpyExact says when that is right. */
  method Memcpy(memory: array<byte>, dest: int, src: int, n: int)
    requires 0 <= dest && 0 <= src && 0 <= n && dest + n <= memory.Length && src + n <= memory.Length
    modifies memory
    ensures memory[..] == Done(old(memory[..]), dest, src, MemcpyMoves(dest, n))
    ensures !Upward(dest, src, n) || OneMove(dest, n) ==>
              Written(memory, old(memory[..]), dest, old(memory[src..src + n]))
  {
    ghost var was := memory[..];
    hide Done, UnitCopied, MemcpyMoves, Written, OneMove, Upward;
    CopyAll(memory, dest, src, n);
    if !Upward(dest, src, n) || OneMove(dest, n) {
      CopiedRight(was, dest, src, n);
      RightIsWritten(memory, was, dest, src, n);
    }
  }

  lemma RightIsWritten(memory: array<byte>, was: seq<byte>, dest: int, src: int, n: int)
    requires InBounds(was, dest, src, n) && memory[..] == UnitCopied(was, dest, src, n)
    ensures Written(memory, was, dest, was[src..src + n])
  {
    hide UnitCopied;
    assert memory.Length == |memory[..]| == |was|;
    forall i | 0 <= i < |was|
      ensures memory[i] == if dest <= i < dest + n then was[src..src + n][i - dest] else was[i]
    {
      UnitAt(was, dest, src, n, i);
      assert memory[i] == memory[..][i];
    }
  }

  /** The first done bytes of a copy from src to dest have been made. */
  ghost predicate Moved(memory: array<byte>, was: seq<byte>, dest: int, src: int, done: int)
    requires 0 <= src && src + done <= |was| && 0 <= dest && dest + done <= |was|
    reads memory
  {
    memory.Length == |was| && forall i {:trigger memory[i]} :: 0 <= i < |was| ==>
      memory[i] == if dest <= i < dest + done then was[src + (i - dest)] else was[i]
  }

  /** Moves up or down according to the order of the addresses, so any overlap is harmless. */
  method Memmove(memory: array<byte>, dest: int, src: int, n: int)
    requires 0 <= dest && 0 <= src && 0 <= n && dest + n <= memory.Length && src + n <= memory.Length
    modifies memory
    ensures Written(memory, old(memory[..]), dest, old(memory[src..src + n]))
  {
    ghost var was := memory[..];
    var edi, esi, ecx := dest, src, n;
    if esi >= edi {
      while ecx != 0
        invariant 0 <= ecx && edi + ecx == dest + n && esi - src == edi - dest >= 0
        invariant Moved(memory, was, dest, src, edi - dest)
      {
        memory[edi] := memory[esi];
        edi, esi, ecx := edi + 1, esi + 1, ecx - 1;
      }
    } else {
      esi, edi := esi + ecx - 1, edi + ecx - 1;
      while ecx != 0
        invariant 0 <= ecx <= n && edi == dest + ecx - 1 && esi == src + ecx - 1
        invariant forall i {:trigger memory[i]} :: 0 <= i < memory.Length ==>
                    memory[i] == if edi < i < dest + n then was[src + (i - dest)] else was[i]
      {
        memory[edi] := memory[esi];
        edi, esi, ecx := edi - 1, esi - 1, ecx - 1;
      }
    }
  }
}
