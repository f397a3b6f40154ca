/** The client and the server together: what the client makes of the GET
    reply, and what the server stores of the client's PUT. */
module Protocol {
  import opened Base
  import opened Text
  import Utf8
  import opened Crypto
  import opened Handshake
  import opened Upload
  import opened Experiment
  import Server

  /** The request's view of a server response: a 500 ends the request with
      `ProtocolError`, and its body (Bottle's error page) is never read. */
  function AsReply(r: Server.Response, errorPage: string): (reply: Reply)
    ensures IsRequestError(reply.result) <==> r.InternalError?
    ensures r.Ok? ==> reply == Reply(Succeeded, r.body)
  {
    match r
    case Ok(body) => Reply(Succeeded, body)
    case InternalError => Reply(ProtocolError, errorPage)
  }

  lemma Pow10Values()
    ensures Pow10(6) == 1000000 && Pow10(7) == 10000000
  {
    assert Pow10(1) == 10;
    assert Pow10(2) == 100;
    assert Pow10(3) == 1000;
    assert Pow10(4) == 10000;
    assert Pow10(5) == 100000;
  }

  /** The client reads back exactly the id and the key the server put in its
      reply: the id is the text before the colon, the key the text after it,
      each without the spaces around the colon. */
  lemma ReplyParsesBack(id: int)
    ensures ParseIdentity(Server.WelcomeBody(id)) == Server.FormatId(id)
    ensures ParseKey(Server.WelcomeBody(id)) == Some(Server.EncryptionKey)
  {
    var f, key := Server.FormatId(id), Server.EncryptionKey;
    assert Server.WelcomeBody(id) == f + " : " + key;
    ZeroPaddedToken(id, Server.IdWidth);
    Server.EncryptionKeyIsToken();
    IdentityOfSpacedPair(f, key);
    KeyOfSpacedPair(f, key);
  }

  /** Replies for different ids carry identities the client tells apart. */
  lemma DistinctIdsDistinctIdentities(a: int, b: int)
    requires a != b
    ensures Server.WelcomeReply(a).Ok? && Server.WelcomeReply(b).Ok?
    ensures ParseIdentity(Server.WelcomeReply(a).body) != ParseIdentity(Server.WelcomeReply(b).body)
  {
    ReplyParsesBack(a);
    ReplyParsesBack(b);
    if Server.FormatId(a) == Server.FormatId(b) {
      ZeroPaddedInjective(a, b, Server.IdWidth);
    }
  }

  /** A GET on a readable counter `c` connects the client in one round: it
      stores the zero-padded `c` as its identity and the server's key. */
  lemma HandshakeMeetsServer(s: Server.Store, c: int, errorPage: string)
    requires Server.Counter(s) == Some(c)
    ensures var h := Step(Start, AsReply(Server.Welcome(s).0, errorPage));
      && ConnectionCheck(h)
      && GetSubjectNumber(h) == Some(Server.FormatId(c))
      && h.encryptionKey == Some(Server.EncryptionKey)
  {
    Server.WelcomeAdvances(s);
    ReplyParsesBack(c);
    assert ':' in Server.WelcomeBody(c) by {
      assert Server.WelcomeBody(c)[|Server.FormatId(c)| + 1] == ':';
    }
  }

  /** Without a readable counter the server answers 500 and keeps its disk;
      the client counts a failed request and asks again. */
  lemma HandshakeRetriesUnreadableCounter(s: Server.Store, errorPage: string)
    requires Server.Counter(s).None?
    ensures Server.Welcome(s).1 == s
    ensures var h := Step(Start, AsReply(Server.Welcome(s).0, errorPage));
      h.awaiting && h.status == Retrying && h.retryCount == 1 && !ConnectionCheck(h)
  {
  }

  /** The key is sixteen ASCII characters, so its UTF-8 bytes make an AES-128 key. */
  lemma KeyFitsAes()
    ensures |Utf8.Encode(Server.EncryptionKey)| == 16
    ensures ValidAesKeyLength(|Utf8.Encode(Server.EncryptionKey)|)
  {
    Utf8.EncodeAscii(Server.EncryptionKey);
  }

  /** For ids 0 to 999999 and blocks 1 to 9 the client's file name is 35
      ASCII characters, so its UTF-8 encoding is exactly the 35 bytes the
      server cuts off as the name. */
  lemma FileNameFitsFrame(id: int, stamp: Moment, block: int)
    requires 0 <= id < 1000000 && 1 <= block <= 9
    ensures |FileName(Server.FormatId(id), stamp, block)| == Server.FilenameLength
    ensures |Utf8.Encode(FileName(Server.FormatId(id), stamp, block))| == Server.FilenameLength
  {
    var f := Server.FormatId(id);
    Pow10Values();
    ZeroPaddedWidth(id, Server.IdWidth);
    DigitsAreAscii(f);
    FileNameAscii(f, stamp, block);
    FileNameLength(f, stamp, block);
    Utf8.EncodeAscii(FileName(f, stamp, block));
  }

  /** The data a holder of the key and the cipher's inverse recovers from the
      server's copy of the upload named `name`; None when there is no such file
      or it is too short to hold an IV. */
  function Retrieve(store: Server.Store, name: string, key: string, decipher: Cipher): Option<Bytes> {
    var path := Server.DataPath(name);
    if path in store.files then Decrypt(Utf8.Encode(key), store.files[path], decipher) else None
  }

  /** A PUT whose name takes exactly the 35 bytes is stored whole: the server
      answers "Upload complete." and keeps the IV and the ciphertext under the
      name, and the holder of the key and the cipher's inverse gets the data
      back from that file. */
  lemma UploadRoundTrip(
    s: Server.Store, name: string, key: string, iv: Iv, data: Bytes, cipher: Cipher, decipher: Cipher)
    requires |Utf8.Encode(name)| == Server.FilenameLength
    requires ValidAesKeyLength(|Utf8.Encode(key)|)
    requires Inverts(decipher, cipher)
    ensures var blob := Encrypt(Some(key), iv, data, cipher).value;
      var out := Server.SaveData(s, UploadBuffer(name, blob));
      && out.0 == Server.Ok(Server.UploadComplete)
      && out.1.files == s.files[Server.DataPath(name) := blob]
      && Retrieve(out.1, name, key, decipher) == Some(data)
  {
    var blob := Encrypt(Some(key), iv, data, cipher).value;
    Server.SaveFramed(s, name, blob);
    DecryptEncrypted(key, iv, data, cipher, decipher);
  }

  /** The PUT that gets through in a delivered chain of uploads, with the
      server's key and a name of the 35 bytes, leaves on the server a file
      from which the data as read in that attempt is recovered. */
  lemma DeliveredUploadDecrypts(
    s: Server.Store, name: string, path: string, attempts: seq<Attempt>, n: nat,
    cipher: Cipher, decipher: Cipher)
    requires |Utf8.Encode(name)| == Server.FilenameLength
    requires Inverts(decipher, cipher)
    requires n < |attempts|
    requires forall i :: 0 <= i <= n ==> path in attempts[i].disk
    requires forall i :: 0 <= i < n ==> IsRequestError(attempts[i].result)
    requires !IsRequestError(attempts[n].result)
    ensures var u := RunUpload(name, path, Some(Server.EncryptionKey), attempts, cipher);
      && u.state == Delivered && |u.sent| == n + 1
      && Server.SaveData(s, u.sent[n]).0 == Server.Ok(Server.UploadComplete)
      && Retrieve(Server.SaveData(s, u.sent[n]).1, name, Server.EncryptionKey, decipher)
         == Some(attempts[n].disk[path])
  {
    var key := Server.EncryptionKey;
    KeyFitsAes();
    DeliveredAfterFailures(name, path, Some(key), attempts, n, cipher);
    var a := attempts[n];
    SentBody(name, path, Some(key), a, cipher);
    UploadRoundTrip(s, name, key, a.iv, a.disk[path], cipher, decipher);
  }

  /** Different ids from 0 to 999999 never have their data stored under the
      same path, whatever the stamps and blocks. */
  lemma DistinctSubjectsDistinctFiles(id1: int, id2: int, t1: Moment, t2: Moment, b1: int, b2: int)
    requires 0 <= id1 < 1000000 && 0 <= id2 < 1000000 && id1 != id2
    ensures Server.DataPath(FileName(Server.FormatId(id1), t1, b1))
            != Server.DataPath(FileName(Server.FormatId(id2), t2, b2))
  {
    Pow10Values();
    ZeroPaddedWidth(id1, Server.IdWidth);
    ZeroPaddedWidth(id2, Server.IdWidth);
    if Server.DataPath(FileName(Server.FormatId(id1), t1, b1))
       == Server.DataPath(FileName(Server.FormatId(id2), t2, b2)) {
      Server.DataPathInjective(FileName(Server.FormatId(id1), t1, b1), FileName(Server.FormatId(id2), t2, b2));
      FileNameInjective(Server.FormatId(id1), t1, b1, Server.FormatId(id2), t2, b2);
      ZeroPaddedInjective(id1, id2, Server.IdWidth);
    }
  }

  /** From id 1000000 on the name is 36 bytes: the server stores the upload
      under the first 35 and puts the last byte of the name in front of the
      IV, so the stored file no longer starts with the IV. */
  lemma SeventhDigitShiftsFrame(s: Server.Store, id: int, stamp: Moment, block: int, blob: Bytes)
    requires 1000000 <= id < 10000000 && 1 <= block <= 9
    ensures var name := FileName(Server.FormatId(id), stamp, block);
      && |name| == Server.FilenameLength + 1
      && Server.SaveData(s, UploadBuffer(name, blob))
         == (Server.Ok(Server.UploadComplete),
             s.(files := s.files[Server.DataPath(name[..Server.FilenameLength])
                                 := Utf8.Encode(name[Server.FilenameLength..]) + blob]))
      && |Utf8.Encode(name[Server.FilenameLength..])| == 1
  {
    var name := FileName(Server.FormatId(id), stamp, block);
    SevenDigitName(id, stamp, block);
    var head, tail := name[..Server.FilenameLength], name[Server.FilenameLength..];
    assert All(head, IsAscii) && All(tail, IsAscii);
    Utf8.EncodeAscii(head);
    Utf8.EncodeAscii(tail);
    assert name == head + tail;
    Server.SaveShifted(s, head, tail, blob);
  }

  /** A seven-digit id makes a 36-character ASCII name. */
  lemma SevenDigitName(id: int, stamp: Moment, block: int)
    requires 1000000 <= id < 10000000 && 1 <= block <= 9
    ensures var name := FileName(Server.FormatId(id), stamp, block);
      |name| == Server.FilenameLength + 1 && All(name, IsAscii)
  {
    var f := Server.FormatId(id);
    Pow10Values();
    ZeroPaddedWidth(id, Server.IdWidth);
    DecimalLength(id, 7);
    DigitsAreAscii(f);
    FileNameAscii(f, stamp, block);
    FileNameLayout(f, stamp, block);
    DecimalLength(block, 1);
  }
}
