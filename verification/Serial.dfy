/** The serial port: a device whose `read` hands out the incoming bytes in chunks of
    any size, and treadn, which collects a given number of bytes over such reads. */
module Serial {
  import opened Bytes

  class Port {
    const input: seq<byte>  // every byte the device will ever deliver
    const faulty: bool      // whether reads may fail or come back empty early
    var pos: nat            // bytes handed out so far

    predicate Valid()
      reads this
    {
      pos <= |input|
    }

    constructor (input: seq<byte>, faulty: bool)
      ensures Valid() && pos == 0 && this.input == input && this.faulty == faulty
    {
      this.input, this.faulty, pos := input, faulty, 0;
    }

    /** read(2): -1 for an error, 0 for end of file, otherwise the size of the chunk. How
        much of what is asked for arrives is not determined. */
    method Read(buf: array<byte>, at: nat, count: nat) returns (r: int)
      requires Valid() && 0 < count && at + count <= buf.Length
      modifies this, buf
      ensures Valid() && -1 <= r <= count
      ensures !faulty ==> if old(pos) < |input| then 0 < r else r == 0
      ensures pos == old(pos) + if r > 0 then r else 0
      ensures buf[..] == Splice(old(buf[..]), at, input[old(pos)..pos])
    {
      var most := if count < |input| - pos then count else |input| - pos;
      r :| -1 <= r <= most && (!faulty ==> if 0 < most then 0 < r else r == 0);
      if r > 0 {
        CopyBytes(buf, at, input[pos..pos + r]);
        pos := pos + r;
      }
    }
  }

  /** treadn: what arrived lies in the buffer at `at` and nothing else there changed; on
      a healthy port everything asked for arrives, however the reads chop it. */
  method Treadn(port: Port, buf: array<byte>, at: nat, count: nat) returns (r: int)
    requires port.Valid() && at + count <= buf.Length
    modifies port, buf
    ensures port.Valid() && -1 <= r <= count
    ensures port.pos == old(port.pos) + if r > 0 then r else 0
    ensures buf[..] == Splice(old(buf[..]), at, port.input[old(port.pos)..port.pos])
    ensures !port.faulty ==> r == if count < |port.input| - old(port.pos) then count else |port.input| - old(port.pos)
  {
    var nleft, to := count, at;
    while nleft > 0
      invariant port.Valid() && 0 <= nleft <= count && to == at + count - nleft
      invariant port.pos == old(port.pos) + count - nleft
      invariant buf[..] == Splice(old(buf[..]), at, port.input[old(port.pos)..port.pos])
    {
      ghost var pos0 := port.pos;
      var nread := port.Read(buf, to, nleft);
      SpliceTwice(old(buf[..]), at, port.input[old(port.pos)..pos0], port.input[pos0..port.pos]);
      assert port.input[old(port.pos)..pos0] + port.input[pos0..port.pos] == port.input[old(port.pos)..port.pos];
      if nread < 0 {
        if nleft == count {
          return -1;
        } else {
          break;
        }
      } else if nread == 0 {
        break;
      }
      nleft := nleft - nread;
      to := to + nread;
    }
    return count - nleft;
  }
}
