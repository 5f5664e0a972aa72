/** The few stdio calls the modelled programs make, on files held in memory. */
module Stdio {
  import opened Bytes

  const EOF := -1

  class InFile {
    const data: seq<byte>
    var pos: nat

    constructor (data: seq<byte>)
      ensures this.data == data && pos == 0 && Valid() && Rest() == data
    {
      this.data := data;
      pos := 0;
    }

    ghost predicate Valid()
      reads this
    {
      pos <= |data|
    }

    /** What is still to be read. */
    ghost function Rest(): seq<byte>
      requires Valid()
      reads this
    {
      data[pos..]
    }

    method Getc() returns (c: int)
      requires Valid()
      modifies this`pos
      ensures Valid() && -1 <= c < 256
      ensures old(Rest()) == [] ==> c == EOF && pos == old(pos)
      ensures old(Rest()) != [] ==> c == old(Rest())[0] && Rest() == old(Rest())[1..] && pos == old(pos) + 1
    {
      if pos == |data| {
        c := EOF;
      } else {
        c := data[pos];
        pos := pos + 1;
      }
    }

    /** Pushes back the character read last; pushing back EOF does nothing. */
    method Ungetc(c: int)
      requires Valid() && (c != EOF ==> pos > 0 && data[pos - 1] == c)
      modifies this`pos
      ensures Valid()
      ensures Rest() == if c == EOF then old(Rest()) else [c] + old(Rest())
      ensures pos == if c == EOF then old(pos) else old(pos) - 1
    {
      if c != EOF {
        pos := pos - 1;
      }
    }

    /** fread (buf, 1, n, fp) with the buffer thrown away. */
    method Skip(n: nat)
      requires Valid()
      modifies this`pos
      ensures Valid()
      ensures Rest() == if n <= |old(Rest())| then old(Rest())[n..] else []
    {
      pos := if pos + n <= |data| then pos + n else |data|;
    }
  }

  class OutFile {
    var written: seq<byte>

    constructor ()
      ensures written == []
    {
      written := [];
    }

    /** putc converts its argument to unsigned char. */
    method Putc(c: int)
      modifies this
      ensures written == old(written) + [c % 256]
    {
      written := written + [c % 256];
    }

    method Fputs(s: seq<byte>)
      modifies this
      ensures written == old(written) + s
    {
      written := written + s;
    }
  }
}
