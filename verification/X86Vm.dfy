/**
  The x86 call VM and argument iterator as objects (dyncall_callvm_x86.c, dyncall_args_x86.c)
  for stdcall and the two fastcall conventions.
 */
module X86Vm {
  import opened Memory
  import opened Arguments
  import opened X86

  /** DCCallVM_x86 in one mode */
  class CallVM {
    const mode: Mode
    var mIntRegs: nat
    const vec: Vector

    ghost function State(): Caller
      reads this, vec, vec.data
    {
      Caller(mIntRegs, vec.Value())
    }

    /** The call VM after dcMode and dcReset. */
    constructor (mode: Mode, total: nat)
      requires total >= Reserved(mode)
      ensures this.mode == mode && Fresh(mode, State()) && vec.data.Length == total
      ensures fresh(this) && fresh(vec) && fresh(vec.data)
    {
      this.mode := mode;
      vec := new Vector(total);
      mIntRegs := 0;
      new;
      Reset();
    }

    /** dc_callvm_reset_x86 and dc_callvm_reset_x86_win32_fast */
    method Reset()
      requires vec.data.Length >= Reserved(mode)
      modifies this, vec
      ensures Fresh(mode, State())
    {
      vec.Resize(Reserved(mode));
      mIntRegs := 0;
    }

    /** dc_callvm_argInt_x86, dc_callvm_argInt_x86_win32_fast_ms and _gnu */
    method ArgInt(x: Word)
      requires State().Valid(mode)
      modifies this, vec, vec.data
      ensures State() == PushWord(mode, old(State()), x)
    {
      if mode != StdCall && mIntRegs < 2 {
        CopyBytes(vec.data, 4 * mIntRegs, x);
        mIntRegs := mIntRegs + 1;
      } else {
        vec.Append(x);
      }
    }

    /** dc_callvm_argLongLong_x86 and dc_callvm_argLongLong_x86_win32_fast_gnu */
    method ArgLongLong(x: Eightbyte)
      requires State().Valid(mode)
      modifies this, vec, vec.data
      ensures State() == PushLong(mode, old(State()), x)
    {
      if mode == FastGnu {
        mIntRegs := 2;
      }
      vec.Append(x);
    }

    /** dc_callvm_argFloat_x86 */
    method ArgFloat(x: Word)
      requires State().Valid(mode)
      modifies vec, vec.data
      ensures State() == Push(mode, old(State()), FloatArg(x))
    {
      vec.Append(x);
    }

    /** dc_callvm_argDouble_x86 */
    method ArgDouble(x: Eightbyte)
      requires State().Valid(mode)
      modifies vec, vec.data
      ensures State() == Push(mode, old(State()), DoubleArg(x))
    {
      vec.Append(x);
    }

    /** Any argument, dispatched as dcArgXxx does. */
    method Arg(a: Arguments.Arg)
      requires State().Valid(mode)
      modifies this, vec, vec.data
      ensures State() == Push(mode, old(State()), a)
    {
      match a
      case WordArg(b) => ArgInt(b);
      case LongArg(b) => ArgLongLong(b);
      case FloatArg(b) => ArgFloat(b);
      case DoubleArg(b) => ArgDouble(b);
    }
  }

  /** DCArgs with the reader table of one mode */
  class Args {
    const mode: Mode
    const mem: seq<byte>
    var fastCount: nat
    var sp: nat

    ghost function State(): Reader
      reads this
    {
      Reader(fastCount, sp)
    }

    constructor (mode: Mode, mem: seq<byte>)
      ensures State() == Reader(0, Reserved(mode)) && this.mode == mode && this.mem == mem
    {
      this.mode, this.mem := mode, mem;
      fastCount, sp := 0, Reserved(mode);
    }

    /** default_i32 and fast_i32 */
    method I32() returns (w: Word)
      modifies this
      ensures w == Answer(mode, old(State()), KWord, mem) && State() == After(mode, old(State()), KWord)
    {
      if mode != StdCall && fastCount < 2 {
        w := Load(mem, 4 * fastCount, 4);
        fastCount := fastCount + 1;
      } else {
        w := Load(mem, sp, 4);
        sp := sp + 4;
      }
    }

    /** default_i64 and fast_gnu_i64 */
    method I64() returns (l: Eightbyte)
      modifies this
      ensures l == Answer(mode, old(State()), KLong, mem) && State() == After(mode, old(State()), KLong)
    {
      if mode == FastGnu {
        fastCount := fastCount + 2;
      }
      l := Load(mem, sp, 8);
      sp := sp + 8;
    }

    /** default_f32 */
    method F32() returns (f: Word)
      modifies this
      ensures f == Answer(mode, old(State()), KFloat, mem) && State() == After(mode, old(State()), KFloat)
    {
      f := Load(mem, sp, 4);
      sp := sp + 4;
    }

    /** default_f64 */
    method F64() returns (d: Eightbyte)
      modifies this
      ensures d == Answer(mode, old(State()), KDouble, mem) && State() == After(mode, old(State()), KDouble)
    {
      d := Load(mem, sp, 8);
      sp := sp + 8;
    }

    /** Any request, dispatched as dcbArgXxx does. */
    method Arg(k: Kind) returns (v: seq<byte>)
      modifies this
      ensures v == Answer(mode, old(State()), k, mem) && State() == After(mode, old(State()), k)
    {
      match k
      case KWord => v := I32();
      case KLong => v := I64();
      case KFloat => v := F32();
      case KDouble => v := F64();
    }
  }

  // --- whole calls --------------------------------------------------------------------------

  method PlaceAll(vm: CallVM, args: seq<Arguments.Arg>)
    requires vm.State().Valid(vm.mode)
    modifies vm, vm.vec, vm.vec.data
    ensures vm.State() == PushAll(vm.mode, old(vm.State()), args)
  {
    hide Push;
    for k := 0 to |args|
      invariant vm.State().Valid(vm.mode)
      invariant PushAll(vm.mode, vm.State(), args[k..]) == PushAll(vm.mode, old(vm.State()), args)
    {
      assert args[k..][1..] == args[k + 1..];
      vm.Arg(args[k]);
    }
  }

  method ReadAll(r: Args, kinds: seq<Kind>) returns (answers: seq<seq<byte>>)
    modifies r
    ensures answers == Answers(r.mode, old(r.State()), kinds, r.mem)
    ensures r.State() == AfterAll(r.mode, old(r.State()), kinds)
  {
    hide Answer, After;
    answers := [];
    for k := 0 to |kinds|
      invariant answers + Answers(r.mode, r.State(), kinds[k..], r.mem) == Answers(r.mode, old(r.State()), kinds, r.mem)
      invariant AfterAll(r.mode, r.State(), kinds[k..]) == AfterAll(r.mode, old(r.State()), kinds)
    {
      assert kinds[k..][1..] == kinds[k + 1..];
      var v := r.Arg(kinds[k]);
      answers := answers + [v];
    }
  }

  /** dcbCleanupSize_x86_std, _fast_ms and _fast_gnu */
  method CleanupSize(mode: Mode, sig: string) returns (size: nat)
    requires ')' in sig
    ensures size == Cleanup(mode, ArgumentPart(sig), 0)
  {
    match mode
    case StdCall => size := CleanupSizeStd(sig);
    case FastMs => size := CleanupSizeFastMs(sig);
    case FastGnu => size := CleanupSizeFastGnu(sig);
  }

  /**
    A call through a used call VM to a callback: the handler gets the arguments, and the callee
    removes as many bytes as the caller pushed and the handler read.
   */
  method Call(vm: CallVM, sig: string, args: seq<Arguments.Arg>)
      returns (answers: seq<seq<byte>>, pushed: nat, read: nat)
    requires ')' in sig && Supported(ArgumentPart(sig)) && Kinds(args) == KindsOf(ArgumentPart(sig))
    requires Reserved(vm.mode) + Cleanup(vm.mode, ArgumentPart(sig), 0) <= vm.vec.data.Length
    modifies vm, vm.vec, vm.vec.data
    ensures answers == Contents(args)
    ensures pushed == read == Cleanup(vm.mode, ArgumentPart(sig), 0)
  {
    hide PushAll, Answers, AfterAll, Cleanup, ArgumentPart, Supported;
    vm.Reset();
    ghost var start := vm.State();
    PlaceAll(vm, args);
    var r := new Args(vm.mode, vm.vec.data[..]);
    answers := ReadAll(r, Kinds(args));
    ThreeWayAgreement(vm.mode, start, sig, args);
    pushed, read := vm.vec.mSize - Reserved(vm.mode), r.sp - Reserved(vm.mode);
  }
}
