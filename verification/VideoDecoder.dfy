/**
 * The stateful decoder behind a video backdrop: sequential decodes, grab without decoding, seeks, and
 * position queries. An exact decoder of a file of known length reads, grabs, seeks by index and
 * counts truthfully, but its timestamps are any function of the query and the frame, and its seeks by
 * time land anywhere; any other decoder answers whatever its tape says.
 */
module VideoDecoder {
  import opened Options

  /** A decoded picture: which source frame it shows, and what frame validation says of it. */
  datatype Frame = Frame(content: int, valid: bool, oversize: bool)

  datatype Reply = Reply(ok: bool, frame: Option<Frame>, position: Option<int>, time: Option<real>)

  function Picture(i: int): Frame {
    Frame(i, true, false)
  }

  class Decoder {
    const exact: bool
    const length: nat
    const stampOf: (nat, nat) -> Option<real>   // an exact decoder's answer to a query, by its number and the frame
    const frameAt: real -> nat                  // where an exact decoder's seek by time lands
    var queries: nat
    var pos: nat                // the next frame, for an exact decoder
    var tape: seq<Reply>        // the coming answers of any other decoder
    var decodes: nat
    var grabs: nat
    ghost var grabbed: nat      // grabs that worked

    constructor (exact: bool, length: nat, stampOf: (nat, nat) -> Option<real>, frameAt: real -> nat, tape: seq<Reply>)
      ensures this.exact == exact && this.length == length && this.stampOf == stampOf && this.frameAt == frameAt
      ensures pos == queries == decodes == grabs == grabbed == 0
    {
      this.exact, this.length, this.stampOf, this.frameAt, this.tape := exact, length, stampOf, frameAt, tape;
      pos, queries, decodes, grabs, grabbed := 0, 0, 0, 0, 0;
    }

    /** What an exact decoder says of the frame it gave last, a negative time being none. */
    function Stamp(): Option<real>
      reads this
    {
      var t := stampOf(queries, if pos > 0 then pos - 1 else 0);
      if t.Some? && t.value < 0.0 then None else t
    }

    /** The `i`-th coming reply of a decoder that is not exact; a failure once the tape is over. */
    function Coming(i: nat): Reply
      reads `tape
    {
      if i < |tape| then tape[i] else Reply(false, None, None, None)
    }

    method Answer() returns (r: Reply)
      modifies `tape
      ensures r == old(Coming(0)) && tape == if old(tape) == [] then [] else old(tape)[1..]
    {
      r := Reply(false, None, None, None);
      if tape != [] {
        r, tape := tape[0], tape[1..];
      }
    }

    method Read() returns (frame: Option<Frame>)
      modifies `pos, `tape, `decodes
      ensures decodes == old(decodes) + 1
      ensures exact ==> if old(pos) < length then frame == Some(Picture(old(pos))) && pos == old(pos) + 1 else frame.None? && pos == old(pos)
      ensures !exact ==>
        && frame == (if old(Coming(0)).ok then old(Coming(0)).frame else None)
        && tape == if old(tape) == [] then [] else old(tape)[1..]
    {
      decodes := decodes + 1;
      if exact {
        frame := None;
        if pos < length {
          frame, pos := Some(Picture(pos)), pos + 1;
        }
      } else {
        var r := Answer();
        frame := if r.ok then r.frame else None;
      }
    }

    method SeekFrame(i: nat) returns (ok: bool)
      modifies `pos, `tape
      ensures exact && i <= length ==> ok && pos == i
      ensures !exact ==> ok == old(Coming(0)).ok && tape == if old(tape) == [] then [] else old(tape)[1..]
    {
      if exact {
        ok := i <= length;
        pos := if ok then i else pos;
      } else {
        var r := Answer();
        ok := r.ok;
      }
    }

    method SeekTime(t: real) returns (ok: bool)
      modifies `pos, `tape
      ensures exact ==> ok == (frameAt(t) < length) && pos == if ok then frameAt(t) else old(pos)
    {
      if exact {
        ok := frameAt(t) < length;
        pos := if ok then frameAt(t) else pos;
      } else {
        var r := Answer();
        ok := r.ok;
      }
    }

    method Grab() returns (ok: bool)
      modifies `pos, `tape, `grabs, `grabbed
      ensures grabs == old(grabs) + 1 && grabbed == old(grabbed) + if ok then 1 else 0
      ensures exact ==> ok == (old(pos) < length) && pos == if ok then old(pos) + 1 else old(pos)
    {
      grabs := grabs + 1;
      if exact {
        ok := pos < length;
        pos := if ok then pos + 1 else pos;
      } else {
        var r := Answer();
        ok := r.ok;
      }
      if ok {
        grabbed := grabbed + 1;
      }
    }

    /** Decode the frame grabbed last. */
    method Retrieve() returns (frame: Option<Frame>)
      modifies `tape
      ensures exact && 0 < pos ==> frame == Some(Picture(pos - 1))
    {
      if exact {
        frame := if 0 < pos then Some(Picture(pos - 1)) else None;
      } else {
        var r := Answer();
        frame := if r.ok then r.frame else None;
      }
    }

    /** The rounded position of the next frame, when the backend reports a number. */
    method Position() returns (p: Option<int>)
      modifies `tape
      ensures exact ==> p == Some(pos)
    {
      if exact {
        p := Some(pos);
      } else {
        var r := Answer();
        p := r.position;
      }
    }

    /** The reported time of the frame given last; a negative one is none. */
    method Timestamp() returns (t: Option<real>)
      modifies `tape, `queries
      ensures exact ==> t == old(Stamp()) && queries == old(queries) + 1
      ensures t.Some? ==> t.value >= 0.0
    {
      if exact {
        t := Stamp();
        queries := queries + 1;
      } else {
        var r := Answer();
        t := if r.time.Some? && r.time.value < 0.0 then None else r.time;
      }
    }
  }
}
