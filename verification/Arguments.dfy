/**
  The argument kinds a 32-bit calling convention tells apart, shared by the ARM, PowerPC and
  x86 models: narrower integers and pointers travel as words.
 */
module Arguments {
  import opened Memory

  datatype Kind = KWord | KLong | KFloat | KDouble

  datatype Arg = WordArg(w: Word) | LongArg(l: Eightbyte) | FloatArg(f: Word) | DoubleArg(d: Eightbyte) {
    function Kind(): Kind {
      match this
      case WordArg(_) => KWord
      case LongArg(_) => KLong
      case FloatArg(_) => KFloat
      case DoubleArg(_) => KDouble
    }

    function Bytes(): seq<byte> {
      match this
      case WordArg(b) => b
      case LongArg(b) => b
      case FloatArg(b) => b
      case DoubleArg(b) => b
    }
  }

  function Kinds(args: seq<Arg>): (k: seq<Kind>)
    ensures |k| == |args|
  {
    if args == [] then [] else [args[0].Kind()] + Kinds(args[1..])
  }

  /** The values a list of arguments should be read back as. */
  function Contents(args: seq<Arg>): seq<seq<byte>> {
    if args == [] then [] else [args[0].Bytes()] + Contents(args[1..])
  }
}
