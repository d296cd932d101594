/** What survives in the log: whole records of entries within the limits, up to the first tear or damage. */
module WalLaws {
  import opened Options
  import opened Bytes
  import opened Codec
  import CodecLaws
  import Crc
  import Kms
  import opened Wal

  // ---------- one entry ----------

  lemma PayloadLength(e: LogEntry)
    ensures |Payload(e)| == 29 + |e.collection| + |e.id| + |Blob(e)|
  {
    hide Blob;
  }

  /** Reading a string longer than the limit throws. */
  lemma TooLong(limit: nat, t: Text, rest: seq<Byte>)
    requires limit < |t| < SIZE_LIMIT
    ensures ReadPrefixed(limit, Prefixed(t) + rest) == Failed
  {
    hide Size, ReadSize;
    SizeBack(|t|, t + rest);
    assert Prefixed(t) + rest == Size(|t|) + (t + rest);
  }

  lemma BodyBack(e: LogEntry)
    requires WellTypedEntry(e)
    ensures ParseBody(e.kind, e.transaction, e.collection, e.id, Prefixed(Blob(e))) == Some(Stored(e))
       <==> (e.kind == PUT ==> EncodableDocument(e.doc) && |Encode(e.doc)| <= MAX_BYTES)
  {
    hide Prefixed, ReadPrefixed, Decode, Encode, EncodableDocument, Payload;
    PayloadLength(e);
    var blob := Blob(e);
    assert Prefixed(blob) + [] == Prefixed(blob);
    if |blob| > MAX_BYTES {
      TooLong(MAX_BYTES, blob, []);
    } else {
      PrefixedBack(MAX_BYTES, blob, []);
      if e.kind == PUT {
        assert Encode(e.doc) + [] == Encode(e.doc);
        CodecLaws.RoundTrip(e.doc, []);
        CodecLaws.ReadDocumentEncodable(blob);
      }
    }
  }

  lemma HeaderBack(e: LogEntry)
    requires |e.collection| <= MAX_STRING && |e.id| <= MAX_STRING
    ensures Parse(Payload(e)) == ParseBody(e.kind, e.transaction, e.collection, e.id, Prefixed(Blob(e)))
  {
    hide Prefixed, ReadPrefixed, Int32, ReadInt32, ParseBody, Blob;
    var p3 := Prefixed(Blob(e));
    var p2 := Prefixed(e.id) + p3;
    var p1 := Prefixed(e.collection) + p2;
    assert Payload(e)[1..] == Int32(e.transaction) + p1;
    Int32Back(e.transaction, p1);
    PrefixedBack(MAX_STRING, e.collection, p2);
    PrefixedBack(MAX_STRING, e.id, p3);
  }

  lemma HeaderRefused(e: LogEntry)
    requires WellTypedEntry(e)
    requires |e.collection| > MAX_STRING || |e.id| > MAX_STRING
    ensures Parse(Payload(e)) == None
  {
    PayloadLength(e);
    hide Prefixed, ReadPrefixed, Int32, ReadInt32, ParseBody, Blob;
    var p3 := Prefixed(Blob(e));
    var p2 := Prefixed(e.id) + p3;
    var p1 := Prefixed(e.collection) + p2;
    assert Payload(e)[1..] == Int32(e.transaction) + p1;
    Int32Back(e.transaction, p1);
    if |e.collection| > MAX_STRING {
      TooLong(MAX_STRING, e.collection, p2);
    } else {
      PrefixedBack(MAX_STRING, e.collection, p2);
      TooLong(MAX_STRING, e.id, p3);
    }
  }

  /** An entry is read back from its own bytes if and only if it is loggable. */
  lemma ParseBack(e: LogEntry)
    requires WellTypedEntry(e)
    ensures Parse(Payload(e)) == Some(Stored(e)) <==> Loggable(e)
  {
    hide Parse, ParseBody, Payload, Blob, Encode, EncodableDocument, Prefixed;
    if |e.collection| <= MAX_STRING && |e.id| <= MAX_STRING {
      HeaderBack(e);
      BodyBack(e);
    } else {
      HeaderRefused(e);
    }
  }

  lemma LoggableShort(e: LogEntry)
    requires Loggable(e)
    ensures |Payload(e)| < WORD_LIMIT
  {
    PayloadLength(e);
  }

  // ---------- one record ----------

  lemma FrameBack(c: seq<Byte>, rest: seq<Byte>)
    requires |c| < WORD_LIMIT
    ensures ReadFrame(Frame(c) + rest) == Got(c, rest)
  {
    hide Word, ReadWord, Sum, ReadSum, Crc.Bitwise;
    var sum := Sum(Crc.Bitwise(c));
    assert c[..|c|] == c;
    assert Frame(c) + rest == Word(|c|) + (c + (sum + rest));
    WordBack(|c|, c + (sum + rest));
    TakeBack(c, sum + rest);
    SumBack(Crc.Bitwise(c), rest);
  }

  /** A record cut short is not read. */
  lemma FrameTorn(c: seq<Byte>, n: nat)
    requires |c| < WORD_LIMIT && n < |Frame(c)|
    ensures ReadFrame(Frame(c)[..n]) == Failed
  {
    hide Word, ReadWord, Sum, Crc.Bitwise;
    var sum := Sum(Crc.Bitwise(c));
    assert c[..|c|] == c;
    assert Frame(c) == Word(|c|) + (c + sum);
    if n >= 4 {
      var s1 := (c + sum)[..n - 4];
      assert Frame(c)[..n] == Word(|c|) + s1;
      WordBack(|c|, s1);
      if n - 4 >= |c| {
        assert s1 == c + sum[..n - 4 - |c|];
        TakeBack(c, sum[..n - 4 - |c|]);
      }
    } else {
      assert ReadWord(Frame(c)[..n]) == Failed by { ShortWord(Frame(c)[..n]); }
    }
  }

  lemma ShortWord(s: seq<Byte>)
    requires |s| < 4
    ensures ReadWord(s) == Failed
  {
  }

  /** A record with one byte of its ciphertext changed is not read. */
  lemma FrameDamaged(c: seq<Byte>, j: nat, b: Byte, rest: seq<Byte>)
    requires |c| < WORD_LIMIT && j < |c| && b != c[j]
    ensures ReadFrame(Word(|c|) + (c[j := b] + Sum(Crc.Bitwise(c))) + rest) == Failed
  {
    hide Word, ReadWord, Sum, ReadSum, Crc.Bitwise;
    var d := c[j := b];
    var sum := Sum(Crc.Bitwise(c));
    assert Word(|c|) + (d + sum) + rest == Word(|c|) + (d + (sum + rest));
    WordBack(|c|, d + (sum + rest));
    TakeBack(d, sum + rest);
    SumBack(Crc.Bitwise(c), rest);
    assert c == c[..j] + [c[j]] + c[j + 1..] && d == c[..j] + [b] + c[j + 1..];
    Crc.OneByteDetected(c[..j], c[j], b, c[j + 1..]);
  }

  /** What a record of any size is read as, if it is read at all: its first bytes, as many as its cut length says. */
  lemma FrameCut(c: seq<Byte>, rest: seq<Byte>)
    ensures |c| < WORD_LIMIT ==> ReadFrame(Frame(c) + rest) == Got(c, rest)
    ensures ReadFrame(Frame(c) + rest).Got? ==> ReadFrame(Frame(c) + rest).value == c[..|c| % WORD_LIMIT]
  {
    hide Word, ReadWord, Sum, ReadSum, Crc.Bitwise;
    if |c| < WORD_LIMIT {
      FrameBack(c, rest);
      assert c[..|c|] == c;
    } else {
      var d, sum := c[..|c| % WORD_LIMIT], Sum(Crc.Bitwise(c));
      assert Frame(c) + rest == Word(|c|) + (d + (sum + rest));
      WordBack(|c|, d + (sum + rest));
      TakeBack(d, sum + rest);
    }
  }

  lemma TakeMore(n: nat, s: seq<Byte>, t: seq<Byte>)
    requires Take(n, s).Got?
    ensures Take(n, s + t) == Got(Take(n, s).value, Take(n, s).rest + t)
  {
    assert (s + t)[..n] == s[..n] && (s + t)[n..] == s[n..] + t;
  }

  lemma ReadPrefixedMore(limit: nat, s: seq<Byte>, t: seq<Byte>)
    requires ReadPrefixed(limit, s).Got?
    ensures ReadPrefixed(limit, s + t) == Got(ReadPrefixed(limit, s).value, ReadPrefixed(limit, s).rest + t)
  {
    hide UnLe;
    TakeMore(8, s, t);
    var size := ReadSize(s);
    if size.value != 0 {
      TakeMore(size.value, size.rest, t);
    }
  }

  /** More bytes behind an entry do not change what it is read as. */
  lemma ParseMore(s: seq<Byte>, t: seq<Byte>)
    requires Parse(s).Some?
    ensures Parse(s + t) == Parse(s)
  {
    hide UnLe, ReadPrefixed, Decode;
    assert (s + t)[0] == s[0] && (s + t)[1..] == s[1..] + t;
    TakeMore(4, s[1..], t);
    var p1 := ReadInt32(s[1..]).rest;
    ReadPrefixedMore(MAX_STRING, p1, t);
    var p2 := ReadPrefixed(MAX_STRING, p1).rest;
    ReadPrefixedMore(MAX_STRING, p2, t);
    ReadPrefixedMore(MAX_BYTES, ReadPrefixed(MAX_STRING, p2).rest, t);
  }

  lemma XoredPrefix(s: seq<Byte>, n: nat)
    requires n <= |s|
    ensures Kms.Xored(s[..n], Kms.Dek()) == Kms.Xored(s, Kms.Dek())[..n]
  {
  }

  /** A record is read as its entry if and only if the entry is within the limits. */
  lemma RecordBack(e: LogEntry, rest: seq<Byte>)
    requires WellTypedEntry(e)
    ensures var r := ReadRecord(Record(e) + rest);
            if Loggable(e) then r == Got(Stored(e), rest) else r.Got? ==> r.value != Stored(e)
  {
    hide Frame, ReadFrame, Parse, Payload, Loggable, Stored, Kms.Xored;
    var p, n := Payload(e), |Payload(e)| % WORD_LIMIT;
    FrameCut(Cipher(e), rest);
    Kms.XoredTwice(p, Kms.Dek());
    ParseBack(e);
    XoredPrefix(Cipher(e), n);
    if Loggable(e) {
      LoggableShort(e);
      assert p[..n] == p;
    } else if ReadRecord(Record(e) + rest).Got? {
      assert p == p[..n] + p[n..];
      ParseMore(p[..n], p[n..]);
    }
  }

  // ---------- the log ----------

  predicate AllLoggable(es: seq<LogEntry>) { forall e <- es :: Loggable(e) }

  ghost predicate AllWellTyped(es: seq<LogEntry>) { forall e <- es :: WellTypedEntry(e) }

  /** An undamaged log gives back every entry if and only if all of them are loggable. */
  lemma {:induction false} LogBack(es: seq<LogEntry>)
    requires AllWellTyped(es)
    ensures Recovered(Log(es)) == StoredAll(es) <==> AllLoggable(es)
  {
    hide Record, ReadRecord, Loggable, WellTypedEntry, Payload, Stored;
    if es == [] {
      assert ReadRecord([]) == Failed by { NothingRead(); }
    } else {
      var e, rest := es[0], Log(es[1..]);
      RecordBack(e, rest);
      LogBack(es[1..]);
      if Loggable(e) {
        assert AllLoggable(es) <==> AllLoggable(es[1..]) by { assert es == [e] + es[1..]; }
        assert Recovered(Log(es)) == [Stored(e)] + Recovered(rest);
        assert Recovered(Log(es))[1..] == Recovered(rest) && StoredAll(es)[1..] == StoredAll(es[1..]);
      } else {
        assert StoredAll(es)[0] == Stored(e);
      }
    }
  }

  lemma NothingRead()
    ensures ReadRecord([]) == Failed
  {
  }

  lemma OneRecovered(e: LogEntry, rest: seq<Byte>)
    requires WellTypedEntry(e) && Loggable(e)
    ensures Recovered(Record(e) + rest) == [Stored(e)] + Recovered(rest)
  {
    hide Record, ReadRecord, Loggable, WellTypedEntry, Stored;
    RecordBack(e, rest);
  }

  /** Records that are wholly there are read, whatever follows them. */
  lemma {:induction false} LogThen(es: seq<LogEntry>, rest: seq<Byte>)
    requires AllWellTyped(es) && AllLoggable(es)
    ensures Recovered(Log(es) + rest) == StoredAll(es) + Recovered(rest)
  {
    hide Record, Recovered, Loggable, WellTypedEntry, Stored;
    if es == [] {
      assert Log(es) + rest == rest && [] + Recovered(rest) == Recovered(rest);
    } else {
      var tail := Log(es[1..]) + rest;
      assert Log(es) + rest == Record(es[0]) + tail;
      OneRecovered(es[0], tail);
      LogThen(es[1..], rest);
      assert [Stored(es[0])] + (StoredAll(es[1..]) + Recovered(rest)) == StoredAll(es) + Recovered(rest);
    }
  }

  /** A log cut at any byte gives back exactly the entries whose records lie wholly before the cut. */
  lemma {:induction false} TornTail(es: seq<LogEntry>, n: nat)
    requires AllWellTyped(es) && AllLoggable(es) && n <= |Log(es)|
    ensures Recovered(Log(es)[..n]) == StoredAll(es[..Whole(es, n)])
  {
    hide Record, Recovered, Loggable, WellTypedEntry, Stored;
    if es == [] {
      NoneRecovered();
    } else {
      var e, size := es[0], |Record(es[0])|;
      LoggableShort(e);
      if n < size {
        assert Log(es)[..n] == Record(e)[..n];
        RecordTorn(e, n);
      } else {
        var k := Whole(es[1..], n - size);
        assert Log(es)[..n] == Record(e) + Log(es[1..])[..n - size];
        OneRecovered(e, Log(es[1..])[..n - size]);
        TornTail(es[1..], n - size);
        assert es[..1 + k][1..] == es[1..][..k] && es[..1 + k][0] == e;
      }
    }
  }

  lemma RecordTorn(e: LogEntry, n: nat)
    requires |Payload(e)| < WORD_LIMIT && n < |Record(e)|
    ensures Recovered(Record(e)[..n]) == []
  {
    hide Frame, ReadFrame, Payload;
    FrameTorn(Cipher(e), n);
  }

  lemma NoneRecovered()
    ensures Recovered([]) == []
  {
    hide ReadRecord;
    NothingRead();
  }

  /** The record of `e` with byte `j` of its ciphertext replaced. */
  ghost function Damaged(e: LogEntry, j: nat, b: Byte): seq<Byte>
    requires j < |Cipher(e)|
  {
    Word(|Cipher(e)|) + (Cipher(e)[j := b] + Sum(Crc.Bitwise(Cipher(e))))
  }

  /**
   A log with one damaged payload byte gives back exactly the entries before the damaged record,
   whatever follows it.
   */
  lemma OneByteDamaged(before: seq<LogEntry>, e: LogEntry, j: nat, b: Byte, after: seq<Byte>)
    requires AllWellTyped(before) && AllLoggable(before) && Loggable(e)
    requires j < |Cipher(e)| && b != Cipher(e)[j]
    ensures Recovered(Log(before) + (Damaged(e, j, b) + after)) == StoredAll(before)
  {
    hide Log, Cipher, ReadFrame, Loggable, Frame, Word, Sum, Crc.Bitwise;
    LogThen(before, Damaged(e, j, b) + after);
    CipherShort(e);
    FrameDamaged(Cipher(e), j, b, after);
  }

  lemma CipherShort(e: LogEntry)
    requires Loggable(e)
    ensures |Cipher(e)| < WORD_LIMIT
  {
    hide Payload, Loggable;
    LoggableShort(e);
  }

  // ---------- writing on after a crash ----------

  lemma {:induction false} LogAppend(a: seq<LogEntry>, b: seq<LogEntry>)
    ensures Log(a + b) == Log(a) + Log(b)
  {
    hide Record;
    if a == [] {
      assert a + b == b;
    } else {
      assert (a + b)[0] == a[0] && (a + b)[1..] == a[1..] + b;
      LogAppend(a[1..], b);
    }
  }

  /** After a crash on a record boundary, everything written later comes back if and only if all of it is loggable. */
  lemma BoundaryResumes(es: seq<LogEntry>, k: nat, later: seq<LogEntry>)
    requires AllWellTyped(es) && AllLoggable(es) && k <= |es| && AllWellTyped(later)
    ensures var n := |Log(es[..k])|;
            && n <= |Log(es)|
            && (Recovered(Log(es)[..n] + Log(later)) == StoredAll(es[..k]) + StoredAll(later) <==> AllLoggable(later))
  {
    hide Log, Recovered, Loggable, WellTypedEntry, StoredAll;
    assert es == es[..k] + es[k..];
    LogAppend(es[..k], es[k..]);
    assert Log(es)[..|Log(es[..k])|] == Log(es[..k]);
    assert forall e <- es[..k] :: e in es;
    LogThen(es[..k], Log(later));
    LogBack(later);
    var a := StoredAll(es[..k]);
    assert (a + Recovered(Log(later)))[|a|..] == Recovered(Log(later)) && (a + StoredAll(later))[|a|..] == StoredAll(later);
  }

  /** The first `size` bytes are there with four more behind them, which are their checksum. */
  ghost predicate CarriesSum(size: nat, x: seq<Byte>) {
    size + 4 <= |x| && ReadSum(x[size..]).value == Crc.Bitwise(x[..size])
  }

  /** What recovery makes of the bytes behind a length word. */
  ghost function Resumed(size: nat, x: seq<Byte>): seq<LogEntry> {
    if !CarriesSum(size, x) then []
    else match Parse(Kms.Xored(x[..size], Kms.Dek()))
      case None => []
      case Some(e) => [e] + Recovered(x[size + 4..])
  }

  lemma ResumedIs(s: seq<Byte>)
    requires ReadWord(s).Got?
    ensures Recovered(s) == Resumed(ReadWord(s).value, ReadWord(s).rest)
    ensures ReadFrame(s).Got? <==> CarriesSum(ReadWord(s).value, ReadWord(s).rest)
  {
    hide ReadWord, UnSum, Parse, Crc.Bitwise, Kms.Xored;
    var size, x := ReadWord(s).value, ReadWord(s).rest;
    if size + 4 <= |x| {
      assert x[size..][4..] == x[size + 4..];
    }
  }

  /**
   Nothing removes a torn record before the log is appended to again. Whatever has been written after a tear
   behind the length word, recovery gets past the tear if and only if as many bytes as the lost record had,
   and four more, are there and happen to carry their own checksum; if not, everything written later is lost.
   */
  lemma TearSwallows(es: seq<LogEntry>, torn: LogEntry, m: nat, after: seq<Byte>)
    requires AllWellTyped(es) && AllLoggable(es) && Loggable(torn) && 4 <= m <= |Record(torn)|
    ensures var size, x := |Cipher(torn)|, Record(torn)[4..m] + after;
            && (ReadFrame(Record(torn)[..m] + after).Got? <==> CarriesSum(size, x))
            && Recovered(Log(es) + (Record(torn)[..m] + after)) == StoredAll(es) + Resumed(size, x)
            && (!CarriesSum(size, x) ==> Recovered(Log(es) + (Record(torn)[..m] + after)) == StoredAll(es))
  {
    hide Log, Cipher, Loggable, ReadFrame, Recovered, Resumed, CarriesSum, Word, ReadWord, Sum, Crc.Bitwise, StoredAll;
    var c := Cipher(torn);
    CipherShort(torn);
    LogThen(es, Record(torn)[..m] + after);
    assert c[..|c|] == c;
    var x := Record(torn)[4..m] + after;
    assert Record(torn)[..m] + after == Word(|c|) + x;
    WordBack(|c|, x);
    ResumedIs(Word(|c|) + x);
    assert !CarriesSum(|c|, x) ==> Resumed(|c|, x) == [] by { NotResumed(|c|, x); }
    assert StoredAll(es) + [] == StoredAll(es);
  }

  lemma NotResumed(size: nat, x: seq<Byte>)
    ensures !CarriesSum(size, x) ==> Resumed(size, x) == []
  {
    hide CarriesSum;
  }

  /**
   A tear inside the length word: the length is read from what is left of it and from what has been written
   after it, and the same condition decides.
   */
  lemma TornLength(es: seq<LogEntry>, torn: LogEntry, m: nat, after: seq<Byte>)
    requires AllWellTyped(es) && AllLoggable(es) && m < 4
    ensures var s := Record(torn)[..m] + after;
            if |s| < 4 then Recovered(Log(es) + s) == StoredAll(es)
            else Recovered(Log(es) + s) == StoredAll(es) + Resumed(UnLe(s[..4]), s[4..])
  {
    hide Log, Recovered, Resumed, Record, StoredAll, UnLe;
    var s := Record(torn)[..m] + after;
    LogThen(es, s);
    if |s| < 4 {
      assert Recovered(s) == [] by { TooShort(s); }
      assert StoredAll(es) + [] == StoredAll(es);
    } else {
      ResumedIs(s);
    }
  }

  lemma TooShort(s: seq<Byte>)
    requires |s| < 4
    ensures Recovered(s) == []
  {
  }

  /** As long as less is written than a torn record lacks, all of it is lost. */
  lemma LaterLost(es: seq<LogEntry>, torn: LogEntry, m: nat, later: seq<LogEntry>)
    requires AllWellTyped(es) && AllLoggable(es) && Loggable(torn)
    requires 4 <= m && m + |Log(later)| < |Record(torn)|
    ensures Recovered(Log(es) + (Record(torn)[..m] + Log(later))) == StoredAll(es)
  {
    hide Log, Cipher, Loggable, Recovered, Resumed, Crc.Bitwise, ReadFrame;
    TearSwallows(es, torn, m, Log(later));
    CipherShort(torn);
    assert |Record(torn)| == |Cipher(torn)| + 8;
  }

  /** One entry, lost behind a tear of a longer one, though it would come back on its own. */
  lemma EntryLost()
    ensures var torn := LogEntry(CREATE_COLLECTION, -1, seq(100, _ => 65), [], NO_DOCUMENT);
            var later := [LogEntry(CREATE_COLLECTION, -1, [66], [], NO_DOCUMENT)];
            && Recovered(Record(torn)[..4] + Log(later)) == []
            && Recovered(Log(later)) == later
  {
    hide Payload, Recovered, Frame, Crc.Bitwise, Stored;
    var torn := LogEntry(CREATE_COLLECTION, -1, seq(100, _ => 65), [], NO_DOCUMENT);
    var e := LogEntry(CREATE_COLLECTION, -1, [66], [], NO_DOCUMENT);
    PayloadLength(torn);
    PayloadLength(e);
    RecordLength(torn);
    RecordLength(e);
    assert [e][1..] == [] && Log([e]) == Record(e) + [];
    LaterLost([], torn, 4, [e]);
    assert Log([]) + (Record(torn)[..4] + Log([e])) == Record(torn)[..4] + Log([e]);
    assert AllWellTyped([e]) && AllLoggable([e]);
    LogBack([e]);
    assert StoredAll([e]) == [Stored(e)] + [] && Stored(e) == e by { PlainEntry(e); }
  }

  lemma PlainEntry(e: LogEntry)
    requires e.kind != PUT && e.doc == NO_DOCUMENT
    ensures Stored(e) == e
  {
  }

  lemma RecordLength(e: LogEntry)
    requires |Payload(e)| < WORD_LIMIT
    ensures |Record(e)| == |Payload(e)| + 8
  {
    hide Payload, Crc.Bitwise;
  }
}
