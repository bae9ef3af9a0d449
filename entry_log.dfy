/**
 * The entry log `entries.jsonl`: an append-only file with one JSON record
 * per line, read back newest first. The file is its sequence of lines; the
 * JSON encoder and decoder are parameters (`encode(e) == None` is a failed
 * `json_encode`, `decode(t) == None` a line whose `json_decode` is not an
 * array).
 */
module EntryLog {
  import opened Wrappers
  import opened Text

  /** One guestbook entry as the accept path builds it. */
  datatype Entry = Entry(id: string, ts: int, name: string, message: string, ipHash: string)

  /** The line, once trimmed, is not blank and decodes to `x`. */
  predicate Yields(line: string, decode: string -> Option<Entry>, x: Entry) {
    Trim(line) != "" && decode(Trim(line)) == Some(x)
  }

  /** What one line of the file contributes to a read: its record, or
      nothing when it is blank after trimming or does not decode. */
  function LineRecord(line: string, decode: string -> Option<Entry>): (rs: seq<Entry>)
    ensures |rs| <= 1
    ensures rs != [] ==> Yields(line, decode, rs[0])
    ensures rs == [] <==> Trim(line) == "" || decode(Trim(line)).None?
  {
    var t := Trim(line);
    if t == "" then []
    else match decode(t)
      case Some(r) => [r]
      case None => []
  }

  /** The records of `lines`, in file order. */
  function Decoded(lines: seq<string>, decode: string -> Option<Entry>): (rows: seq<Entry>)
    ensures |rows| <= |lines|
  {
    if lines == [] then []
    else Decoded(lines[..|lines| - 1], decode) + LineRecord(lines[|lines| - 1], decode)
  }

  /** `array_reverse`. */
  function Reverse<T>(s: seq<T>): (r: seq<T>)
    ensures |r| == |s|
    ensures forall k :: 0 <= k < |s| ==> r[k] == s[|s| - 1 - k]
  {
    if s == [] then [] else [s[|s| - 1]] + Reverse(s[..|s| - 1])
  }

  /** `array_slice($s, 0, $limit)`: a negative limit drops that many
      elements from the end. */
  function Slice<T>(s: seq<T>, limit: int): (r: seq<T>)
    ensures limit >= 0 ==> |r| == if limit < |s| then limit else |s|
    ensures limit < 0 ==> |r| == if |s| + limit > 0 then |s| + limit else 0
    ensures r <= s
  {
    if limit >= 0 then s[..if limit < |s| then limit else |s|]
    else s[..if |s| + limit > 0 then |s| + limit else 0]
  }

  /** What `read_entries` returns for a readable file: its records,
      newest first, cut to `limit`. */
  function ReadView(lines: seq<string>, decode: string -> Option<Entry>, limit: int): seq<Entry> {
    Slice(Reverse(Decoded(lines, decode)), limit)
  }

  /** `read_entries`: scans the file line by line, keeping every line that
      is not blank and decodes; an unreadable file yields no records. */
  method ReadEntries(lines: seq<string>, decode: string -> Option<Entry>, limit: int, readable: bool)
    returns (rows: seq<Entry>)
    ensures rows == if readable then ReadView(lines, decode, limit) else []
  {
    var found: seq<Entry> := [];
    if readable {
      var i := 0;
      while i < |lines|
        invariant 0 <= i <= |lines|
        invariant found == Decoded(lines[..i], decode)
      {
        assert Decoded(lines[..i + 1], decode) == found + LineRecord(lines[i], decode) by {
          assert lines[..i + 1][..i] == lines[..i];
        }
        ghost var before := found;
        var line := Trim(lines[i]);
        if line != "" {
          var row := decode(line);
          if row.Some? {
            found := found + [row.value];
          }
        }
        assert found == before + LineRecord(lines[i], decode);
        i := i + 1;
      }
      assert lines[..|lines|] == lines;
    }
    rows := Slice(Reverse(found), limit);
  }

  /** The log read as a whole is the concatenation of its parts read separately. */
  lemma {:induction false} DecodedAppend(a: seq<string>, b: seq<string>, decode: string -> Option<Entry>)
    ensures Decoded(a + b, decode) == Decoded(a, decode) + Decoded(b, decode)
  {
    if b == [] {
      assert a + b == a;
    } else {
      var b' := b[..|b| - 1];
      var r := LineRecord(b[|b| - 1], decode);
      assert (a + b)[..|a + b| - 1] == a + b';
      assert (a + b)[|a + b| - 1] == b[|b| - 1];
      calc {
        Decoded(a + b, decode);
        Decoded(a + b', decode) + r;
        { DecodedAppend(a, b', decode); }
        Decoded(a, decode) + Decoded(b', decode) + r;
        Decoded(a, decode) + (Decoded(b', decode) + r);
      }
    }
  }

  /** A blank or undecodable line is skipped and every other record is kept. */
  lemma DecodedSkipsBadLine(a: seq<string>, line: string, b: seq<string>, decode: string -> Option<Entry>)
    requires Trim(line) == "" || decode(Trim(line)).None?
    ensures Decoded(a + [line] + b, decode) == Decoded(a + b, decode)
  {
    assert LineRecord(line, decode) == [];
    assert Decoded([line], decode) == [] by {
      assert [line][..0] == [];
    }
    calc {
      Decoded(a + [line] + b, decode);
      { DecodedAppend(a + [line], b, decode); }
      Decoded(a + [line], decode) + Decoded(b, decode);
      { DecodedAppend(a, [line], decode); }
      Decoded(a, decode) + Decoded(b, decode);
      { DecodedAppend(a, b, decode); }
      Decoded(a + b, decode);
    }
  }

  /** Every record read back comes from some non-blank line that decodes to it. */
  lemma {:induction false} DecodedSound(lines: seq<string>, decode: string -> Option<Entry>, x: Entry)
    requires x in Decoded(lines, decode)
    ensures exists i :: 0 <= i < |lines| && Yields(lines[i], decode, x)
  {
    var n := |lines| - 1;
    var init := lines[..n];
    var last := LineRecord(lines[n], decode);
    assert Decoded(lines, decode) == Decoded(init, decode) + last;
    if x in Decoded(init, decode) {
      DecodedSound(init, decode, x);
      var i :| 0 <= i < |init| && Yields(init[i], decode, x);
      assert lines[i] == init[i];
    } else {
      assert Yields(lines[n], decode, x);
    }
  }

  /** The record of every non-blank decodable line is read back. */
  lemma {:induction false} DecodedComplete(lines: seq<string>, decode: string -> Option<Entry>, x: Entry, i: nat)
    requires i < |lines| && Yields(lines[i], decode, x)
    ensures x in Decoded(lines, decode)
  {
    var n := |lines| - 1;
    var init := lines[..n];
    var last := LineRecord(lines[n], decode);
    assert Decoded(lines, decode) == Decoded(init, decode) + last;
    if i < n {
      assert init[i] == lines[i];
      DecodedComplete(init, decode, x, i);
    } else {
      assert last == [x];
    }
  }

  /** A record is read back exactly when some line of the file is
      non-blank and decodes to it. */
  lemma DecodedMembers(lines: seq<string>, decode: string -> Option<Entry>, x: Entry)
    ensures x in Decoded(lines, decode) <==>
            exists i :: 0 <= i < |lines| && Yields(lines[i], decode, x)
  {
    if x in Decoded(lines, decode) {
      DecodedSound(lines, decode, x);
    }
    if exists i :: 0 <= i < |lines| && Yields(lines[i], decode, x) {
      var i :| 0 <= i < |lines| && Yields(lines[i], decode, x);
      DecodedComplete(lines, decode, x, i);
    }
  }

  /** Reading returns at most `limit` records. */
  lemma ReadViewLength(lines: seq<string>, decode: string -> Option<Entry>, limit: int)
    ensures limit >= 0 ==> |ReadView(lines, decode, limit)| <= limit
    ensures |ReadView(lines, decode, limit)| <= |lines|
  {
  }

  /** Every record a read returns is the record of a non-blank decodable
      line of the log. */
  lemma ReadViewFromLines(lines: seq<string>, decode: string -> Option<Entry>, limit: int, k: nat)
    requires k < |ReadView(lines, decode, limit)|
    ensures exists i :: 0 <= i < |lines| && Yields(lines[i], decode, ReadView(lines, decode, limit)[k])
  {
    var d := Decoded(lines, decode);
    assert ReadView(lines, decode, limit)[k] == d[|d| - 1 - k];
    DecodedMembers(lines, decode, d[|d| - 1 - k]);
  }

  /** After one more decodable line is appended, a read shows its record
      first, followed by what the old log showed, one shorter. */
  lemma ReadAfterAppend(log: seq<string>, line: string, decode: string -> Option<Entry>, limit: int, r: Entry)
    requires Yields(line, decode, r)
    requires limit >= 1
    ensures |ReadView(log + [line], decode, limit)| >= 1
    ensures ReadView(log + [line], decode, limit)[0] == r
    ensures ReadView(log + [line], decode, limit)[1..] == ReadView(log, decode, limit - 1)
  {
    var d := Decoded(log, decode);
    assert (log + [line])[..|log|] == log;
    assert Decoded(log + [line], decode) == d + [r];
    var v := ReadView(log + [line], decode, limit);
    var w := ReadView(log, decode, limit - 1);
    assert |v[1..]| == |w|;
    forall k | 0 <= k < |w| ensures v[1..][k] == w[k] {
      assert v[k + 1] == (d + [r])[|d| - 1 - k];
    }
  }

  /** `guestbook_data/`: the entry log and the rate-limit markers, each
      marker named by a client's address hash and holding its mtime. */
  class DataDir {
    var entries: seq<string>
    var markers: map<string, int>

    constructor (entries: seq<string>, markers: map<string, int>)
      ensures this.entries == entries && this.markers == markers
    {
      this.entries := entries;
      this.markers := markers;
    }

    /** `store_entry`: appends the encoded entry as one line. It fails, and
        the log is unchanged, when the file cannot be opened, locked or
        written (`writable` is false) or when the entry cannot be encoded. */
    method StoreEntry(entry: Entry, encode: Entry -> Option<string>, writable: bool) returns (ok: bool)
      modifies this`entries
      ensures ok <==> writable && encode(entry).Some?
      ensures entries == if ok then old(entries) + [encode(entry).value] else old(entries)
    {
      var line := encode(entry);
      if !writable || line.None? {
        return false;
      }
      entries := entries + [line.value];
      ok := true;
    }

    /** `store_entry` as the source writes it: a failed `json_encode`
        returns `false`, which concatenates with `PHP_EOL` to an empty line,
        and the write of that line still reports success. */
    method StoreEntryAsWritten(entry: Entry, encode: Entry -> Option<string>, writable: bool) returns (ok: bool)
      modifies this`entries
      ensures ok == writable
      ensures entries == if ok then old(entries) + [WrittenLine(entry, encode)] else old(entries)
    {
      if !writable {
        return false;
      }
      entries := entries + [WrittenLine(entry, encode)];
      ok := true;
    }

    /** `touch($rateFile)`: the client's marker now carries time `now`. */
    method Stamp(key: string, now: int)
      modifies this`markers
      ensures markers == old(markers)[key := now]
    {
      markers := markers[key := now];
    }
  }

  /** The line the source writes for `entry`: its encoding, or the empty
      string that a failed `json_encode` (`false`) becomes. */
  function WrittenLine(entry: Entry, encode: Entry -> Option<string>): (line: string)
    ensures encode(entry).Some? ==> line == encode(entry).value
    ensures encode(entry).None? ==> line == "" && Trim(line) == ""
  {
    encode(entry).GetOr("")
  }

  /** As written, a store whose encoding failed reports success but leaves
      every read of the log exactly as it was before. */
  lemma AsWrittenStoreLosesEntry(log: seq<string>, entry: Entry, encode: Entry -> Option<string>,
                                     decode: string -> Option<Entry>, limit: int)
    requires encode(entry).None?
    ensures ReadView(log + [WrittenLine(entry, encode)], decode, limit) == ReadView(log, decode, limit)
  {
    DecodedSkipsBadLine(log, WrittenLine(entry, encode), [], decode);
    assert log + [WrittenLine(entry, encode)] + [] == log + [WrittenLine(entry, encode)];
    assert log + [] == log;
  }

  /** With the corrected store, a line it appends is the encoding of the
      entry, so an encoder the decoder inverts makes it the first record read. */
  lemma StoredEntryReadFirst(log: seq<string>, entry: Entry, encode: Entry -> Option<string>,
                             decode: string -> Option<Entry>, limit: int)
    requires encode(entry).Some?
    requires Yields(encode(entry).value, decode, entry)
    requires limit >= 1
    ensures |ReadView(log + [encode(entry).value], decode, limit)| >= 1
    ensures ReadView(log + [encode(entry).value], decode, limit)[0] == entry
  {
    ReadAfterAppend(log, encode(entry).value, decode, limit, entry);
  }
}
