/** Reading a range of an open chapter (`read_at`, crates/packaging/src/adapter.rs). */
module ChapterRead {
  import opened Wrappers

  /** What one positioned read of the operating system does; it may return less than it was asked for. */
  datatype Attempt = Reads(atMost: nat) | Interrupted | Fails

  function Least(a: nat, b: nat): nat {
    if a < b then a else b
  }

  /** The bytes of a range, clamped to the end of the file. */
  function Range(content: seq<Byte>, offset: nat, len: nat): seq<Byte> {
    if offset >= |content| then [] else content[offset..offset + Least(len, |content| - offset)]
  }

  lemma RangeIs(content: seq<Byte>, offset: nat, len: nat, bytes: seq<Byte>)
    requires |bytes| == if offset >= |content| then 0 else Least(len, |content| - offset)
    requires forall k | 0 <= k < |bytes| :: bytes[k] == content[offset + k]
    ensures bytes == Range(content, offset, len)
  {
  }

  /**
   Fills the buffer however the reads are cut up: short reads and interruptions do not show in the
   result. `size` is the length when the file was opened: truncated since, the file gives what is
   left, and what was appended since is not read.
   */
  method ReadAt(content: seq<Byte>, size: nat, offset: nat, len: nat, attempts: seq<Attempt>) returns (r: Result<seq<Byte>>)
    ensures r.Err? ==> r == Err(Storage) && Fails in attempts
    ensures Fails !in attempts ==> r.Ok?
    ensures r.Ok? ==> r.value == Range(content[..Least(size, |content|)], offset, len)
  {
    var remaining := if offset < size then size - offset else 0;
    var wanted := Least(len, remaining);
    if wanted == 0 {
      return Ok([]);
    }
    var buffer := new Byte[wanted](_ => 0);
    var filled, next := 0, 0;
    while filled < wanted
      invariant 0 <= filled <= wanted && 0 <= next <= |attempts| && buffer.Length == wanted
      invariant filled > 0 ==> offset < |content|
      invariant offset < size && wanted == Least(len, size - offset)
      invariant offset < |content| ==> offset + filled <= |content|
      invariant offset < |content| ==> forall k | 0 <= k < filled :: buffer[k] == content[offset + k]
      invariant |content| <= offset ==> filled == 0
      decreases |attempts| - next, wanted - filled
    {
      var attempt := Reads(wanted);
      if next < |attempts| {
        attempt := attempts[next];
        next := next + 1;
      }
      var at := offset + filled;
      var available := if at < |content| then Least(wanted - filled, |content| - at) else 0;
      match attempt {
        case Interrupted =>
        case Fails =>
          return Err(Storage);
        case Reads(atMost) =>
          var n: nat := if atMost == 0 && available > 0 then 1 else Least(atMost, available);
          if n == 0 {
            break;
          }
          forall k | filled <= k < filled + n {
            buffer[k] := content[offset + k];
          }
          filled := filled + n;
      }
    }
    RangeIs(content[..Least(size, |content|)], offset, len, buffer[..filled]);
    return Ok(buffer[..filled]);
  }
}
