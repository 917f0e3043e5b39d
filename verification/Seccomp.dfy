/** The CLI sandbox's system-call filter: a classic-BPF jump program, and the allowlist
    it is meant to compute. */
module Seccomp {

  datatype Verdict = Allow | KillProcess | Trap | Log

  /** A 64-bit field, as the two words the filter can load. */
  datatype U64 = U64(low: bv32, high: bv32)

  /** What the kernel hands to the filter. */
  datatype Data = Data(nr: bv32, arch: bv32, ip: U64, arg0: U64, arg1: U64, arg2: U64, arg3: U64, arg4: U64, arg5: U64)

  /** The 32-bit word at a byte offset of the little-endian record; 0 off the grid. */
  function Word(d: Data, off: nat): bv32 {
    match off
    case 0 => d.nr
    case 4 => d.arch
    case 8 => d.ip.low
    case 12 => d.ip.high
    case 16 => d.arg0.low
    case 20 => d.arg0.high
    case 24 => d.arg1.low
    case 28 => d.arg1.high
    case 32 => d.arg2.low
    case 36 => d.arg2.high
    case 40 => d.arg3.low
    case 44 => d.arg3.high
    case 48 => d.arg4.low
    case 52 => d.arg4.high
    case 56 => d.arg5.low
    case 60 => d.arg5.high
    case _ => 0
  }

  /** The system call's arguments, in order. */
  function Arg(d: Data, i: nat): U64 {
    if i == 0 then d.arg0 else if i == 1 then d.arg1 else if i == 2 then d.arg2
    else if i == 3 then d.arg3 else if i == 4 then d.arg4 else d.arg5
  }

  /** The record is number, architecture, instruction pointer and six little-endian arguments. */
  lemma ArgumentsLieInOrder(d: Data, i: nat)
    requires i < 6
    ensures Word(d, 0) == d.nr && Word(d, 4) == d.arch && U64(Word(d, 8), Word(d, 12)) == d.ip
    ensures U64(Word(d, 16 + 8 * i), Word(d, 16 + 8 * i + 4)) == Arg(d, i)
  {
    assert i == 0 || i == 1 || i == 2 || i == 3 || i == 4 || i == 5;
  }

  const OFF_NR := 0
  const OFF_ARCH := 4
  const OFF_ARG0 := 16
  const OFF_ARG1 := 24
  const OFF_ARG2 := 32

  // ----- the machine

  datatype Insn =
    | Ld(off: nat)                     // acc := word at off
    | And(k: bv32)                     // acc := acc & k
    | Jeq(k: bv32, jt: nat, jf: nat)   // skip jt instructions if acc == k, else jf
    | Ret(v: Verdict)

  datatype Outcome = Returned(v: Verdict) | FellOff

  /** A program, first instruction first. */
  datatype Prog = End | Seq(head: Insn, tail: Prog)

  function Size(p: Prog): nat {
    match p case End => 0 case Seq(_, tail) => 1 + Size(tail)
  }

  function Drop(p: Prog, n: nat): (r: Prog)
    ensures Size(r) <= Size(p) && (r != End ==> n < Size(p))
  {
    if n == 0 || p == End then p else Drop(p.tail, n - 1)
  }

  /** What one instruction does: how many instructions it skips, and the accumulator after it. */
  function Effect(i: Insn, acc: bv32, d: Data): (nat, bv32) {
    match i
    case Ld(off) => (0, Word(d, off))
    case And(k) => (0, acc & k)
    case Jeq(k, jt, jf) => (if acc == k then jt else jf, acc)
    case Ret(_) => (0, acc)
  }

  /** The interpreter: program counter and accumulator. */
  function Exec(prog: Prog, pc: nat, acc: bv32, d: Data): Outcome
    decreases Size(prog) - pc
  {
    match Drop(prog, pc)
    case End => FellOff
    case Seq(i, _) =>
      if i.Ret? then Returned(i.v)
      else var (n, a) := Effect(i, acc, d); Exec(prog, pc + 1 + n, a, d)
  }

  /** The same run, seen as consuming the program from the front. */
  ghost function Run(p: Prog, acc: bv32, d: Data): Outcome
    decreases Size(p)
  {
    match p
    case End => FellOff
    case Seq(i, tail) =>
      if i.Ret? then Returned(i.v)
      else var (n, a) := Effect(i, acc, d); Run(Drop(tail, n), a, d)
  }

  lemma {:induction false} DropDrop(p: Prog, m: nat, n: nat)
    ensures Drop(Drop(p, m), n) == Drop(p, m + n)
  {
    if m > 0 && p != End {
      DropDrop(p.tail, m - 1, n);
    }
  }

  lemma {:induction false} DropOne(p: Prog, n: nat)
    requires Drop(p, n).Seq?
    ensures Drop(p, n + 1) == Drop(p, n).tail && n < Size(p)
  {
    DropDrop(p, n, 1);
  }

  /** Jumps are relative and forward, so a run is determined by what is left of the program. */
  lemma {:induction false} ExecIsRun(prog: Prog, pc: nat, acc: bv32, d: Data)
    ensures Exec(prog, pc, acc, d) == Run(Drop(prog, pc), acc, d)
    decreases Size(prog) - pc
  {
    if Drop(prog, pc).Seq? {
      var i := Drop(prog, pc).head;
      DropOne(prog, pc);
      if !i.Ret? {
        var (n, a) := Effect(i, acc, d);
        DropDrop(prog, pc + 1, n);
        ExecIsRun(prog, pc + 1 + n, a, d);
      }
    }
  }

  // ----- the filter

  const SC_FCNTL: bv32 := 25
  const SC_IOCTL: bv32 := 29
  const SC_FTRUNCATE: bv32 := 46
  const SC_CLOSE: bv32 := 57
  const SC_LSEEK: bv32 := 62
  const SC_READ: bv32 := 63
  const SC_WRITE: bv32 := 64
  const SC_READV: bv32 := 65
  const SC_WRITEV: bv32 := 66
  const SC_PPOLL: bv32 := 73
  const SC_NEWFSTATAT: bv32 := 79
  const SC_EXIT_GROUP: bv32 := 94
  const SC_SET_TID_ADDRESS: bv32 := 96
  const SC_FUTEX: bv32 := 98
  const SC_SET_ROBUST_LIST: bv32 := 99
  const SC_NANOSLEEP: bv32 := 101
  const SC_CLOCK_GETTIME: bv32 := 113
  const SC_CLOCK_NANOSLEEP: bv32 := 115
  const SC_RT_SIGACTION: bv32 := 134
  const SC_RT_SIGPROCMASK: bv32 := 135
  const SC_RT_SIGRETURN: bv32 := 139
  const SC_PRCTL: bv32 := 167
  const SC_GETTIMEOFDAY: bv32 := 169
  const SC_GETPID: bv32 := 172
  const SC_GETUID: bv32 := 174
  const SC_GETTID: bv32 := 178
  const SC_SOCKET: bv32 := 198
  const SC_CONNECT: bv32 := 203
  const SC_SENDTO: bv32 := 206
  const SC_RECVFROM: bv32 := 207
  const SC_SETSOCKOPT: bv32 := 208
  const SC_GETSOCKOPT: bv32 := 209
  const SC_BRK: bv32 := 214
  const SC_MUNMAP: bv32 := 215
  const SC_MREMAP: bv32 := 216
  const SC_MMAP: bv32 := 222
  const SC_MPROTECT: bv32 := 226
  const SC_MADVISE: bv32 := 233
  const SC_GETRANDOM: bv32 := 278

  const AUDIT_ARCH_AARCH64: bv32 := 0xC00000B7
  const AF_UNIX: bv32 := 1
  const SOCK_STREAM: bv32 := 1
  const PROT_EXEC: bv32 := 4
  const IOCTL_TCGETS: bv32 := 0x5401
  const IOCTL_TCSETS: bv32 := 0x5402
  const IOCTL_TCSETSW: bv32 := 0x5403
  const IOCTL_TCSETSF: bv32 := 0x5404
  const IOCTL_TCFLSH: bv32 := 0x540B
  const IOCTL_TIOCGWINSZ: bv32 := 0x5413
  const PR_SET_NAME: bv32 := 15
  const PR_GET_SECCOMP: bv32 := 21
  const PR_GET_NO_NEW_PRIVS: bv32 := 39

  /** The macro that allows one system call outright, applied to a list of them. */
  function Allows(nrs: seq<bv32>, rest: Prog): Prog {
    if nrs == [] then rest else Seq(Jeq(nrs[0], 0, 1), Seq(Ret(Allow), Allows(nrs[1..], rest)))
  }

  const PLAIN1: seq<bv32> := [SC_READ, SC_WRITE, SC_READV, SC_WRITEV, SC_CLOSE, SC_LSEEK, SC_FTRUNCATE, SC_PPOLL]
  const PLAIN2: seq<bv32> := [SC_CONNECT, SC_SENDTO, SC_RECVFROM, SC_GETSOCKOPT, SC_SETSOCKOPT]
  const PLAIN3: seq<bv32> :=
    [SC_MADVISE, SC_MREMAP, SC_BRK, SC_RT_SIGACTION, SC_RT_SIGPROCMASK, SC_RT_SIGRETURN, SC_CLOCK_GETTIME,
     SC_CLOCK_NANOSLEEP, SC_NANOSLEEP, SC_GETTIMEOFDAY, SC_GETUID, SC_GETPID, SC_GETTID]
  const PLAIN4: seq<bv32> :=
    [SC_FUTEX, SC_GETRANDOM, SC_SET_TID_ADDRESS, SC_SET_ROBUST_LIST, SC_FCNTL, SC_NEWFSTATAT, SC_EXIT_GROUP]

  function Prologue(rest: Prog): Prog {
    Seq(Ld(OFF_ARCH),
    Seq(Jeq(AUDIT_ARCH_AARCH64, 1, 0),
    Seq(Ret(KillProcess),
    Seq(Ld(OFF_NR), rest))))
  }

  function SocketBlock(rest: Prog): Prog {
    Seq(Jeq(SC_SOCKET, 0, 7),
    Seq(Ld(OFF_ARG0),
    Seq(Jeq(AF_UNIX, 0, 4),
    Seq(Ld(OFF_ARG1),
    Seq(And(0xFF),
    Seq(Jeq(SOCK_STREAM, 0, 1),
    Seq(Ret(Allow),
    Seq(Ld(OFF_NR), rest))))))))
  }

  function IoctlBlock(dflt: Verdict, rest: Prog): Prog {
    Seq(Jeq(SC_IOCTL, 0, 9),
    Seq(Ld(OFF_ARG1),
    Seq(Jeq(IOCTL_TIOCGWINSZ, 5, 0),
    Seq(Jeq(IOCTL_TCGETS, 4, 0),
    Seq(Jeq(IOCTL_TCSETS, 3, 0),
    Seq(Jeq(IOCTL_TCSETSW, 2, 0),
    Seq(Jeq(IOCTL_TCSETSF, 1, 0),
    Seq(Jeq(IOCTL_TCFLSH, 0, 1),
    Seq(Ret(Allow),
    Seq(Ret(dflt), rest))))))))))
  }

  /** mmap and mprotect: no PROT_EXEC. */
  function NoExecBlock(nr: bv32, dflt: Verdict, rest: Prog): Prog {
    Seq(Jeq(nr, 0, 5),
    Seq(Ld(OFF_ARG2),
    Seq(And(PROT_EXEC),
    Seq(Jeq(0, 0, 1),
    Seq(Ret(Allow),
    Seq(Ret(dflt), rest))))))
  }

  function PrctlBlock(rest: Prog): Prog {
    Seq(Jeq(SC_PRCTL, 0, 6),
    Seq(Ld(OFF_ARG0),
    Seq(Jeq(PR_GET_SECCOMP, 2, 0),
    Seq(Jeq(PR_GET_NO_NEW_PRIVS, 1, 0),
    Seq(Jeq(PR_SET_NAME, 0, 1),
    Seq(Ret(Allow),
    Seq(Ld(OFF_NR), rest)))))))
  }

  function Tail(dflt: Verdict): Prog {
    Allows(PLAIN3, PrctlBlock(Allows(PLAIN4, Seq(Ret(dflt), End))))
  }

  function Middle(dflt: Verdict): Prog {
    IoctlBlock(dflt, NoExecBlock(SC_MMAP, dflt, Allows([SC_MUNMAP], NoExecBlock(SC_MPROTECT, dflt, Tail(dflt)))))
  }

  /** The whole table; `dflt` is the build mode's default action. */
  function Filter(dflt: Verdict): Prog {
    Prologue(Allows(PLAIN1, SocketBlock(Allows(PLAIN2, Middle(dflt)))))
  }

  // ----- the policy, in the kernel's own numbers

  /** Every call number the sandbox names, in order, but openat and the five calls
      whose arguments matter. */
  const PLAINLY_ALLOWED: set<bv32> :=
    {25, 46, 57, 62, 63, 64, 65, 66, 73, 79, 94, 96, 98, 99, 101, 113, 115, 134, 135, 139, 169, 172, 174, 178,
     203, 206, 207, 208, 209, 214, 215, 216, 233, 278}

  predicate PlainlyAllowed(nr: bv32) {
    nr in PLAINLY_ALLOWED
  }

  predicate UnixStreamSocket(d: Data) {
    d.arg0.low == 1 && d.arg1.low & 0xFF == 1
  }

  predicate TerminalIoctl(cmd: bv32) {
    cmd in {0x5401, 0x5402, 0x5403, 0x5404, 0x540B, 0x5413}
  }

  predicate NoExec(d: Data) {
    d.arg2.low & 4 == 0
  }

  predicate HarmlessPrctl(op: bv32) {
    op in {15, 21, 39}
  }

  predicate Permitted(d: Data) {
    || PlainlyAllowed(d.nr)
    || (d.nr == 198 && UnixStreamSocket(d))
    || (d.nr == 29 && TerminalIoctl(d.arg1.low))
    || ((d.nr == 222 || d.nr == 226) && NoExec(d))
    || (d.nr == 167 && HarmlessPrctl(d.arg0.low))
  }

  function Policy(d: Data, dflt: Verdict): Verdict {
    if d.arch != 0xC00000B7 then KillProcess else if Permitted(d) then Allow else dflt
  }

  // ----- the blocks, one by one, in front of any rest

  lemma {:induction false} AllowsRuns(nrs: seq<bv32>, rest: Prog, acc: bv32, d: Data)
    ensures Run(Allows(nrs, rest), acc, d) == if acc in nrs then Returned(Allow) else Run(rest, acc, d)
    decreases |nrs|
  {
    if nrs != [] {
      AllowsRuns(nrs[1..], rest, acc, d);
      assert nrs == [nrs[0]] + nrs[1..];
      var after := Allows(nrs[1..], rest);
      assert Drop(Seq(Ret(Allow), after), 1) == Drop(after, 0) == after;
    }
  }

  /** A block header: run the block on system call `nr`, else skip `n` instructions. */
  lemma {:induction false} HeaderRuns(nr: bv32, n: nat, block: Prog, rest: Prog, acc: bv32, d: Data)
    requires Drop(block, n) == rest
    ensures Run(Seq(Jeq(nr, 0, n), block), acc, d) == if acc == nr then Run(block, acc, d) else Run(rest, acc, d)
  {
    assert Drop(block, 0) == block;
  }

  /** A ladder of comparisons that all jump to the same allowing return. */
  function Ladder(ks: seq<bv32>, rest: Prog): Prog
    requires ks != []
  {
    if |ks| == 1 then Seq(Jeq(ks[0], 0, 1), Seq(Ret(Allow), rest))
    else Seq(Jeq(ks[0], |ks| - 1, 0), Ladder(ks[1..], rest))
  }

  lemma {:induction false} LadderLands(ks: seq<bv32>, rest: Prog)
    requires ks != []
    ensures Drop(Ladder(ks, rest), |ks|) == Seq(Ret(Allow), rest)
    decreases |ks|
  {
    if |ks| == 1 {
      assert Drop(Seq(Ret(Allow), rest), 0) == Seq(Ret(Allow), rest);
    } else {
      LadderLands(ks[1..], rest);
    }
  }

  lemma {:induction false} LadderRuns(ks: seq<bv32>, rest: Prog, acc: bv32, d: Data)
    requires ks != []
    ensures Run(Ladder(ks, rest), acc, d) == if acc in ks then Returned(Allow) else Run(rest, acc, d)
    decreases |ks|
  {
    if |ks| == 1 {
      assert Drop(Seq(Ret(Allow), rest), 1) == Drop(rest, 0) == rest;
      assert Drop(Seq(Ret(Allow), rest), 0) == Seq(Ret(Allow), rest);
    } else {
      LadderRuns(ks[1..], rest, acc, d);
      LadderLands(ks[1..], rest);
      assert ks == [ks[0]] + ks[1..];
      assert Drop(Ladder(ks[1..], rest), 0) == Ladder(ks[1..], rest);
    }
  }

  lemma {:induction false} SkipOne(a: Insn, rest: Prog)
    ensures Drop(Seq(a, rest), 1) == rest
  {
    assert Drop(rest, 0) == rest;
  }

  lemma {:induction false} Skip2(a: Insn, b: Insn, rest: Prog)
    ensures Drop(Seq(a, Seq(b, rest)), 2) == rest
  {
    assert Drop(Seq(b, rest), 1) == Drop(rest, 0);
  }

  lemma {:induction false} Skip3(a: Insn, b: Insn, c: Insn, rest: Prog)
    ensures Drop(Seq(a, Seq(b, Seq(c, rest))), 3) == rest
  {
    Skip2(b, c, rest);
  }

  lemma {:induction false} Skip4(a: Insn, b: Insn, c: Insn, e: Insn, rest: Prog)
    ensures Drop(Seq(a, Seq(b, Seq(c, Seq(e, rest)))), 4) == rest
  {
    Skip3(b, c, e, rest);
  }

  /** Load a word, mask it, compare: allow on equality, else go on behind the return. */
  function MaskTest(off: nat, mask: bv32, k: bv32, after: Prog): Prog {
    Seq(Ld(off), Seq(And(mask), Seq(Jeq(k, 0, 1), Seq(Ret(Allow), after))))
  }

  lemma {:induction false} CompareRuns(k: bv32, after: Prog, acc: bv32, d: Data)
    ensures Run(Seq(Jeq(k, 0, 1), Seq(Ret(Allow), after)), acc, d) == if acc == k then Returned(Allow) else Run(after, acc, d)
  {
    SkipOne(Ret(Allow), after);
    HeaderRuns(k, 1, Seq(Ret(Allow), after), after, acc, d);
  }

  lemma {:induction false} MaskTestRuns(off: nat, mask: bv32, k: bv32, after: Prog, acc: bv32, d: Data, x: bv32)
    requires x == Word(d, off) & mask
    ensures Run(MaskTest(off, mask, k, after), acc, d) == if x == k then Returned(Allow) else Run(after, x, d)
  {
    var compare := Seq(Jeq(k, 0, 1), Seq(Ret(Allow), after));
    LoadRuns(off, Seq(And(mask), compare), acc, d);
    AndRuns(mask, compare, Word(d, off), d);
    CompareRuns(k, after, x, d);
  }

  lemma {:induction false} LoadRuns(off: nat, p: Prog, acc: bv32, d: Data)
    ensures Run(Seq(Ld(off), p), acc, d) == Run(p, Word(d, off), d)
  {
    assert Drop(p, 0) == p;
  }

  lemma {:induction false} AndRuns(mask: bv32, p: Prog, acc: bv32, d: Data)
    ensures Run(Seq(And(mask), p), acc, d) == Run(p, acc & mask, d)
  {
    assert Drop(p, 0) == p;
  }

  lemma {:induction false} MaskTestLength(off: nat, mask: bv32, k: bv32, after: Prog)
    ensures Drop(MaskTest(off, mask, k, after), 4) == after
  {
    Skip4(Ld(off), And(mask), Jeq(k, 0, 1), Ret(Allow), after);
  }

  lemma {:induction false} ReloadRuns(rest: Prog, acc: bv32, d: Data)
    ensures Run(Seq(Ld(OFF_NR), rest), acc, d) == Run(rest, d.nr, d)
  {
    assert Drop(rest, 0) == rest;
  }

  /** The part of the socket block behind its guard. */
  lemma {:induction false} SocketBodyRuns(rest: Prog, acc: bv32, d: Data, x: bv32)
    requires x == Word(d, OFF_ARG1) & 0xFF
    ensures Run(Seq(Ld(OFF_ARG0), Seq(Jeq(AF_UNIX, 0, 4), MaskTest(OFF_ARG1, 0xFF, SOCK_STREAM, Seq(Ld(OFF_NR), rest)))), acc, d)
            == if Word(d, OFF_ARG0) == AF_UNIX && x == SOCK_STREAM then Returned(Allow) else Run(rest, d.nr, d)
  {
    var domain, reload := Word(d, OFF_ARG0), Seq(Ld(OFF_NR), rest);
    var test := MaskTest(OFF_ARG1, 0xFF, SOCK_STREAM, reload);
    LoadRuns(OFF_ARG0, Seq(Jeq(AF_UNIX, 0, 4), test), acc, d);
    MaskTestLength(OFF_ARG1, 0xFF, SOCK_STREAM, reload);
    HeaderRuns(AF_UNIX, 4, test, reload, domain, d);
    MaskTestRuns(OFF_ARG1, 0xFF, SOCK_STREAM, reload, domain, d, x);
    ReloadRuns(rest, domain, d);
    ReloadRuns(rest, x, d);
  }

  lemma {:induction false} SocketRuns(rest: Prog, d: Data)
    ensures Run(SocketBlock(rest), d.nr, d)
            == if d.nr == SC_SOCKET && UnixStreamSocket(d) then Returned(Allow) else Run(rest, d.nr, d)
  {
    var block := Seq(Ld(OFF_ARG0), Seq(Jeq(AF_UNIX, 0, 4), MaskTest(OFF_ARG1, 0xFF, SOCK_STREAM, Seq(Ld(OFF_NR), rest))));
    SocketBodyRuns(rest, d.nr, d, d.arg1.low & 0xFF);
    SocketBlockLength(rest);
    HeaderRuns(SC_SOCKET, 7, block, rest, d.nr, d);
  }

  lemma {:induction false} SocketBlockLength(rest: Prog)
    ensures Drop(Seq(Ld(OFF_ARG0), Seq(Jeq(AF_UNIX, 0, 4), MaskTest(OFF_ARG1, 0xFF, SOCK_STREAM, Seq(Ld(OFF_NR), rest)))), 7) == rest
  {
    var reload := Seq(Ld(OFF_NR), rest);
    var test := MaskTest(OFF_ARG1, 0xFF, SOCK_STREAM, reload);
    var block := Seq(Ld(OFF_ARG0), Seq(Jeq(AF_UNIX, 0, 4), test));
    Skip2(Ld(OFF_ARG0), Jeq(AF_UNIX, 0, 4), test);
    MaskTestLength(OFF_ARG1, 0xFF, SOCK_STREAM, reload);
    SkipOne(Ld(OFF_NR), rest);
    DropDrop(block, 2, 4);
    DropDrop(block, 6, 1);
  }

  const IOCTLS: seq<bv32> :=
    [IOCTL_TIOCGWINSZ, IOCTL_TCGETS, IOCTL_TCSETS, IOCTL_TCSETSW, IOCTL_TCSETSF, IOCTL_TCFLSH]
  const PRCTLS: seq<bv32> := [PR_GET_SECCOMP, PR_GET_NO_NEW_PRIVS, PR_SET_NAME]

  lemma {:induction false} Ladder3(a: bv32, b: bv32, c: bv32, rest: Prog)
    ensures Ladder([a, b, c], rest)
            == Seq(Jeq(a, 2, 0), Seq(Jeq(b, 1, 0), Seq(Jeq(c, 0, 1), Seq(Ret(Allow), rest))))
  {
    assert [a, b, c][1..] == [b, c] && [b, c][1..] == [c];
    assert Ladder([b, c], rest) == Seq(Jeq(b, 1, 0), Ladder([c], rest));
  }

  /** The hand-counted offsets of the ioctl comparisons form a ladder. */
  lemma {:induction false} IoctlLadder(dflt: Verdict, rest: Prog)
    ensures IoctlBlock(dflt, rest) == Seq(Jeq(SC_IOCTL, 0, |IOCTLS| + 3), Seq(Ld(OFF_ARG1), Ladder(IOCTLS, Seq(Ret(dflt), rest))))
  {
    var deny := Seq(Ret(dflt), rest);
    var l3 := [IOCTL_TCSETSW, IOCTL_TCSETSF, IOCTL_TCFLSH];
    Ladder3(IOCTL_TCSETSW, IOCTL_TCSETSF, IOCTL_TCFLSH, deny);
    assert [IOCTL_TCSETS] + l3 == IOCTLS[2..] && IOCTLS[2..][1..] == l3;
    assert IOCTLS[1..][1..] == IOCTLS[2..];
    assert Ladder(IOCTLS[2..], deny) == Seq(Jeq(IOCTL_TCSETS, 3, 0), Ladder(l3, deny));
    assert Ladder(IOCTLS[1..], deny) == Seq(Jeq(IOCTL_TCGETS, 4, 0), Ladder(IOCTLS[2..], deny));
    assert Ladder(IOCTLS, deny) == Seq(Jeq(IOCTL_TIOCGWINSZ, 5, 0), Ladder(IOCTLS[1..], deny));
  }

  /** A guarded ladder on one argument word, with `m` instructions behind it. */
  lemma {:induction false} GuardedLadderRuns(nr: bv32, off: nat, ks: seq<bv32>, after: Prog, m: nat, rest: Prog, d: Data)
    requires ks != [] && Drop(after, m) == rest
    ensures Run(Seq(Jeq(nr, 0, |ks| + m + 2), Seq(Ld(off), Ladder(ks, after))), d.nr, d)
            == if d.nr != nr then Run(rest, d.nr, d)
               else if Word(d, off) in ks then Returned(Allow) else Run(after, Word(d, off), d)
  {
    var ladder := Ladder(ks, after);
    var block := Seq(Ld(off), ladder);
    LadderRuns(ks, after, Word(d, off), d);
    assert Run(block, d.nr, d) == Run(ladder, Word(d, off), d) by {
      assert Drop(ladder, 0) == ladder;
    }
    LadderLands(ks, after);
    DropDrop(ladder, |ks|, m + 1);
    assert Drop(Seq(Ret(Allow), after), m + 1) == Drop(after, m);
    assert Drop(block, |ks| + m + 2) == Drop(ladder, |ks| + m + 1);
    HeaderRuns(nr, |ks| + m + 2, block, rest, d.nr, d);
  }

  lemma {:induction false} IoctlsAreListed(x: bv32)
    ensures x in IOCTLS <==> TerminalIoctl(x)
  {
  }

  lemma {:induction false} IoctlAnswer(dflt: Verdict, rest: Prog, d: Data, x: bv32)
    requires x == Word(d, OFF_ARG1)
    ensures Run(IoctlBlock(dflt, rest), d.nr, d)
            == if d.nr != SC_IOCTL then Run(rest, d.nr, d) else if x in IOCTLS then Returned(Allow) else Returned(dflt)
  {
    var deny := Seq(Ret(dflt), rest);
    IoctlLadder(dflt, rest);
    SkipOne(Ret(dflt), rest);
    GuardedLadderRuns(SC_IOCTL, OFF_ARG1, IOCTLS, deny, 1, rest, d);
    assert Run(deny, x, d) == Returned(dflt);
  }

  lemma {:induction false} IoctlRuns(dflt: Verdict, rest: Prog, d: Data)
    ensures Run(IoctlBlock(dflt, rest), d.nr, d)
            == if d.nr == SC_IOCTL then Returned(if TerminalIoctl(d.arg1.low) then Allow else dflt) else Run(rest, d.nr, d)
  {
    IoctlAnswer(dflt, rest, d, d.arg1.low);
    IoctlsAreListed(d.arg1.low);
  }

  lemma {:induction false} NoExecRuns(nr: bv32, dflt: Verdict, rest: Prog, d: Data)
    ensures Run(NoExecBlock(nr, dflt, rest), d.nr, d)
            == if d.nr == nr then Returned(if NoExec(d) then Allow else dflt) else Run(rest, d.nr, d)
  {
    var deny := Seq(Ret(dflt), rest);
    var block := MaskTest(OFF_ARG2, PROT_EXEC, 0, deny);
    MaskTestRuns(OFF_ARG2, PROT_EXEC, 0, deny, d.nr, d, d.arg2.low & PROT_EXEC);
    MaskTestLength(OFF_ARG2, PROT_EXEC, 0, deny);
    SkipOne(Ret(dflt), rest);
    DropDrop(block, 4, 1);
    HeaderRuns(nr, 5, block, rest, d.nr, d);
  }

  lemma {:induction false} PrctlRuns(rest: Prog, d: Data)
    ensures Run(PrctlBlock(rest), d.nr, d)
            == if d.nr == SC_PRCTL && HarmlessPrctl(d.arg0.low) then Returned(Allow) else Run(rest, d.nr, d)
  {
    PrctlLadder(rest);
    SkipOne(Ld(OFF_NR), rest);
    GuardedLadderRuns(SC_PRCTL, OFF_ARG0, PRCTLS, Seq(Ld(OFF_NR), rest), 1, rest, d);
    ReloadRuns(rest, d.arg0.low, d);
  }

  lemma {:induction false} PrctlLadder(rest: Prog)
    ensures PrctlBlock(rest) == Seq(Jeq(SC_PRCTL, 0, |PRCTLS| + 3), Seq(Ld(OFF_ARG0), Ladder(PRCTLS, Seq(Ld(OFF_NR), rest))))
  {
    Ladder3(PR_GET_SECCOMP, PR_GET_NO_NEW_PRIVS, PR_SET_NAME, Seq(Ld(OFF_NR), rest));
  }

  // ----- the whole table

  lemma {:induction false} TailRuns(dflt: Verdict, d: Data)
    ensures Run(Tail(dflt), d.nr, d)
            == Returned(if d.nr in PLAIN3 || d.nr in PLAIN4 || (d.nr == SC_PRCTL && HarmlessPrctl(d.arg0.low)) then Allow else dflt)
  {
    var end := Seq(Ret(dflt), End);
    AllowsRuns(PLAIN3, PrctlBlock(Allows(PLAIN4, end)), d.nr, d);
    PrctlRuns(Allows(PLAIN4, end), d);
    AllowsRuns(PLAIN4, end, d.nr, d);
  }

  lemma {:induction false} MiddleRuns(dflt: Verdict, d: Data)
    ensures Run(Middle(dflt), d.nr, d)
            == if d.nr == SC_IOCTL then Returned(if TerminalIoctl(d.arg1.low) then Allow else dflt)
               else if d.nr == SC_MMAP then Returned(if NoExec(d) then Allow else dflt)
               else if d.nr == SC_MUNMAP then Returned(Allow)
               else if d.nr == SC_MPROTECT then Returned(if NoExec(d) then Allow else dflt)
               else Run(Tail(dflt), d.nr, d)
  {
    var protect := NoExecBlock(SC_MPROTECT, dflt, Tail(dflt));
    var unmap := Allows([SC_MUNMAP], protect);
    IoctlRuns(dflt, NoExecBlock(SC_MMAP, dflt, unmap), d);
    NoExecRuns(SC_MMAP, dflt, unmap, d);
    AllowsRuns([SC_MUNMAP], protect, d.nr, d);
    NoExecRuns(SC_MPROTECT, dflt, Tail(dflt), d);
  }

  lemma {:induction false} PrologueRuns(rest: Prog, acc: bv32, d: Data)
    ensures Run(Prologue(rest), acc, d)
            == if d.arch == AUDIT_ARCH_AARCH64 then Run(rest, d.nr, d) else Returned(KillProcess)
  {
    var load := Seq(Ld(OFF_NR), rest);
    var kill := Seq(Ret(KillProcess), load);
    var check := Seq(Jeq(AUDIT_ARCH_AARCH64, 1, 0), kill);
    ReloadRuns(rest, d.arch, d);
    SkipOne(Ret(KillProcess), load);
    assert Drop(kill, 0) == kill && Drop(check, 0) == check;
    assert Run(kill, d.arch, d) == Returned(KillProcess);
    assert Run(check, d.arch, d) == if d.arch == AUDIT_ARCH_AARCH64 then Run(load, d.arch, d) else Run(kill, d.arch, d);
    assert Prologue(rest) == Seq(Ld(OFF_ARCH), check);
    assert Effect(Ld(OFF_ARCH), acc, d) == (0, d.arch);
  }

  /** The four lists and munmap are the plain allowlist, and hold no call whose arguments matter. */
  lemma PlainListsAreTheAllowlist(nr: bv32)
    ensures PlainlyAllowed(nr) <==> nr in PLAIN1 || nr in PLAIN2 || nr == SC_MUNMAP || nr in PLAIN3 || nr in PLAIN4
    ensures nr in {SC_SOCKET, SC_IOCTL, SC_MMAP, SC_MPROTECT, SC_PRCTL} ==> !PlainlyAllowed(nr)
  {
  }

  lemma {:induction false} BodyRuns(dflt: Verdict, d: Data)
    ensures Run(Allows(PLAIN1, SocketBlock(Allows(PLAIN2, Middle(dflt)))), d.nr, d)
            == if d.nr in PLAIN1 || d.nr in PLAIN2 || (d.nr == SC_SOCKET && UnixStreamSocket(d)) then Returned(Allow)
               else Run(Middle(dflt), d.nr, d)
  {
    AllowsRuns(PLAIN1, SocketBlock(Allows(PLAIN2, Middle(dflt))), d.nr, d);
    SocketRuns(Allows(PLAIN2, Middle(dflt)), d);
    AllowsRuns(PLAIN2, Middle(dflt), d.nr, d);
  }

  /** For every record and every build mode, executing the table from its first
      instruction returns the policy's verdict. */
  lemma {:induction false} FilterComputesPolicy(d: Data, dflt: Verdict, acc: bv32)
    ensures Exec(Filter(dflt), 0, acc, d) == Returned(Policy(d, dflt))
  {
    var body := Allows(PLAIN1, SocketBlock(Allows(PLAIN2, Middle(dflt))));
    ExecIsRun(Filter(dflt), 0, acc, d);
    PrologueRuns(body, acc, d);
    BodyRuns(dflt, d);
    MiddleRuns(dflt, d);
    TailRuns(dflt, d);
    BlocksMeetThePolicy(d, dflt);
    assert Drop(Filter(dflt), 0) == Filter(dflt);
  }

  /** The blocks' answers, taken in order, are the policy's. */
  lemma {:induction false} BlocksMeetThePolicy(d: Data, dflt: Verdict)
    ensures (if Permitted(d) then Allow else dflt)
            == if d.nr in PLAIN1 || d.nr in PLAIN2 || (d.nr == SC_SOCKET && UnixStreamSocket(d)) then Allow
               else if d.nr == SC_IOCTL then (if TerminalIoctl(d.arg1.low) then Allow else dflt)
               else if d.nr == SC_MMAP then (if NoExec(d) then Allow else dflt)
               else if d.nr == SC_MUNMAP then Allow
               else if d.nr == SC_MPROTECT then (if NoExec(d) then Allow else dflt)
               else if d.nr in PLAIN3 || d.nr in PLAIN4 || (d.nr == SC_PRCTL && HarmlessPrctl(d.arg0.low)) then Allow
               else dflt
  {
    PlainListsAreTheAllowlist(d.nr);
  }

  // ----- the verdicts, call by call

  lemma {:induction false} GuardedCalls(d: Data)
    ensures d.nr == 198 ==> (Permitted(d) <==> UnixStreamSocket(d))
    ensures d.nr == 29 ==> (Permitted(d) <==> TerminalIoctl(d.arg1.low))
    ensures d.nr == 222 || d.nr == 226 ==> (Permitted(d) <==> NoExec(d))
    ensures d.nr == 167 ==> (Permitted(d) <==> HarmlessPrctl(d.arg0.low))
    ensures d.nr !in {29, 167, 198, 222, 226} ==> (Permitted(d) <==> PlainlyAllowed(d.nr))
  {
    PlainListsAreTheAllowlist(d.nr);
  }

  /** A foreign architecture is killed; mmap and mprotect pass without the execute bit. */
  lemma {:induction false} VerdictOnMapping(d: Data, dflt: Verdict, acc: bv32)
    ensures d.arch != 0xC00000B7 ==> Exec(Filter(dflt), 0, acc, d) == Returned(KillProcess)
    ensures d.arch == 0xC00000B7 && (d.nr == 222 || d.nr == 226) ==>
              Exec(Filter(dflt), 0, acc, d) == Returned(if d.arg2.low & 4 == 0 then Allow else dflt)
  {
    FilterComputesPolicy(d, dflt, acc);
    GuardedCalls(d);
  }

  /** A socket passes as a Unix stream, whatever its flags above the type byte. */
  lemma {:induction false} VerdictOnSocket(d: Data, dflt: Verdict, acc: bv32)
    ensures d.arch == 0xC00000B7 && d.nr == 198 ==>
              Exec(Filter(dflt), 0, acc, d) == Returned(if d.arg0.low == 1 && d.arg1.low & 0xFF == 1 then Allow else dflt)
  {
    FilterComputesPolicy(d, dflt, acc);
    GuardedCalls(d);
  }

  /** ioctl passes with one of six terminal commands. */
  lemma {:induction false} VerdictOnIoctl(d: Data, dflt: Verdict, acc: bv32)
    ensures d.arch == 0xC00000B7 && d.nr == 29 ==>
              Exec(Filter(dflt), 0, acc, d)
              == Returned(if d.arg1.low in {0x5401, 0x5402, 0x5403, 0x5404, 0x540B, 0x5413} then Allow else dflt)
  {
    FilterComputesPolicy(d, dflt, acc);
    GuardedCalls(d);
  }

  /** prctl passes with one of three operations. */
  lemma {:induction false} VerdictOnPrctl(d: Data, dflt: Verdict, acc: bv32)
    ensures d.arch == 0xC00000B7 && d.nr == 167 ==>
              Exec(Filter(dflt), 0, acc, d) == Returned(if d.arg0.low in {15, 21, 39} then Allow else dflt)
  {
    FilterComputesPolicy(d, dflt, acc);
    GuardedCalls(d);
  }

  /** No other call's arguments matter: the plain ones pass and the rest get the default. */
  lemma {:induction false} VerdictOnPlain(d: Data, dflt: Verdict, acc: bv32)
    requires d.arch == 0xC00000B7 && d.nr !in {29, 167, 198, 222, 226}
    ensures var plain: set<bv32> := {25, 46, 57, 62, 63, 64, 65, 66, 73, 79, 94, 96, 98, 99, 101, 113, 115, 134, 135, 139, 169,
                                     172, 174, 178, 203, 206, 207, 208, 209, 214, 215, 216, 233, 278};
            Exec(Filter(dflt), 0, acc, d) == Returned(if d.nr in plain then Allow else dflt)
  {
    FilterComputesPolicy(d, dflt, acc);
    GuardedCalls(d);
  }
}
