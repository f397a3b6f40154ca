/** The Bottle server of 2_webAppFiles/bottle_app.py. A GET reads the counter
    in the id file, writes back its successor and answers "<id> : <key>" with
    the id zero-padded to six digits; a PUT takes the first 35 bytes of the
    body as a UTF-8 file name and stores the rest under that name. The server's
    disk is a value; an uncaught exception is a 500 response. */
module Server {
  import opened Base
  import opened Text
  import Utf8

  /** `filename_length`: bytes of every upload that belong to the file name. */
  const FilenameLength: nat := 35

  /** `encryption_key`: the key every GET hands out. */
  const EncryptionKey: string := "tutorial-example"

  /** The key is one token: no colon, no surrounding whitespace. */
  lemma EncryptionKeyIsToken()
    ensures ':' !in EncryptionKey && Unpadded(EncryptionKey, IsDotNetSpace)
  {
  }

  /** Width of the zero-padded id in a GET reply. */
  const IdWidth: nat := 6

  /** Directory and extension of the stored data files. */
  const FilesDir: string := "./mysite/files/"
  const FileSuffix: string := ".bytes"

  /** Body of the PUT reply. */
  const UploadComplete: string := "Upload complete."

  /** The server's disk: the text of './mysite/id.txt' (None while the file is
      missing) and the data files, by path. */
  datatype Store = Store(idFile: Option<string>, files: map<string, Bytes>)

  /** A response: status 200 with a text body, or the 500 Bottle sends when a
      handler raises. */
  datatype Response = Ok(body: string) | InternalError

  /** Why `get_next_id` raises. */
  datatype IdError = IdFileMissing | IdNotAnInteger

  /** The counter in an id file's text: Python `int(text.strip())`. */
  function ReadCounter(text: string): (r: Option<int>)
    // a counter is read only from text that strips to a sign or digit followed by digits
    ensures r.Some? ==>
      var t := TrimWith(text, IsPythonSpace);
      t != [] && All(t[1..], IsDigit) && (IsDigit(t[0]) || t[0] == '-' || t[0] == '+')
  {
    ParseInt(TrimWith(text, IsPythonSpace))
  }

  /** The text `str(n)` that `get_next_id` writes reads back as `n`. */
  lemma CounterReadsBack(n: int)
    ensures ReadCounter(IntToDecimal(n)) == Some(n)
  {
    var t := IntToDecimal(n);
    IntToDecimalUnpadded(n);
    if t != [] {
      assert !IsPythonSpace(t[0]) && !IsPythonSpace(t[|t| - 1]);
    }
    TrimOfUnpadded(t, IsPythonSpace);
    IntRoundTrip(n);
  }

  /** `get_next_id()`: the counter read from the id file, and the text written
      back in its place. Nothing is written when the read raises. */
  function GetNextId(idFile: Option<string>): (r: Result<(int, string), IdError>)
    ensures r.Success? <==> idFile.Some? && ReadCounter(idFile.value).Some?
    ensures idFile.None? ==> r == Failure(IdFileMissing)
    ensures idFile.Some? && r.Failure? ==> r.error == IdNotAnInteger
    ensures r.Success? ==> ReadCounter(idFile.value) == Some(r.value.0)
    // the file now holds the successor of the id handed out
    ensures r.Success? ==> ReadCounter(r.value.1) == Some(r.value.0 + 1)
  {
    match idFile
    case None => Failure(IdFileMissing)
    case Some(text) =>
      match ReadCounter(text)
      case None => Failure(IdNotAnInteger)
      case Some(current) =>
        CounterReadsBack(current + 1);
        Success((current, IntToDecimal(current + 1)))
  }

  /** `f'{id:06d}'`. */
  function FormatId(id: int): string {
    FormatZeroPadded(id, IdWidth)
  }

  /** The reply text for an allocated id. */
  function WelcomeBody(id: int): (b: string)
    // the reply always carries the colon the client splits on
    ensures ':' in b
    // with an id of at most six digits the reply is 25 characters
    ensures 0 <= id < Pow10(IdWidth) ==> |b| == IdWidth + 3 + |EncryptionKey|
  {
    var f := FormatId(id);
    assert (f + " : " + EncryptionKey)[|f| + 1] == ':';
    ZeroPaddedWidth(if id >= 0 then id else 0, IdWidth);
    f + " : " + EncryptionKey
  }

  /** The successful reply to a GET that allocated `id`. */
  function WelcomeReply(id: int): Response {
    Ok(WelcomeBody(id))
  }

  /** `welcome()`, the GET handler. */
  function Welcome(s: Store): (out: (Response, Store))
    ensures out.0.Ok? <==> s.idFile.Some? && ReadCounter(s.idFile.value).Some?
    ensures out.0.InternalError? ==> out.1 == s
    // a GET never touches the data files
    ensures out.1.files == s.files
    ensures out.0.Ok? ==>
      var id := ReadCounter(s.idFile.value).value;
      && out.0.body == WelcomeBody(id)
      && out.1.idFile.Some? && ReadCounter(out.1.idFile.value) == Some(id + 1)
  {
    match GetNextId(s.idFile)
    case Failure(_) => (InternalError, s)
    case Success((id, text)) => (Ok(WelcomeBody(id)), s.(idFile := Some(text)))
  }

  /** `n` requests to a handler served one after the other, each on the
      state the previous one left: the responses in order and the final state. */
  function Serve<S, R>(handler: S -> (R, S), s: S, n: nat): (out: (seq<R>, S))
    ensures |out.0| == n
    decreases n
  {
    if n == 0 then ([], s)
    else
      var first := handler(s);
      var rest := Serve(handler, first.1, n - 1);
      ([first.0] + rest.0, rest.1)
  }

  /** A handler that answers `answer(k)` on counter `k` and advances the
      counter to k + 1 answers k, k + 1, ... to successive requests. */
  lemma {:induction false} ServeCounts<S, R>(
    handler: S -> (R, S), counter: S -> Option<int>, answer: int -> R, s: S, n: nat, c: int)
    requires forall t {:trigger handler(t)} :: counter(t).Some? ==>
      handler(t).0 == answer(counter(t).value) && counter(handler(t).1) == Some(counter(t).value + 1)
    requires counter(s) == Some(c)
    ensures forall i :: 0 <= i < n ==> Serve(handler, s, n).0[i] == answer(c + i)
    ensures counter(Serve(handler, s, n).1) == Some(c + n)
    decreases n
  {
    if n > 0 {
      var next := handler(s).1;
      ServeCounts(handler, counter, answer, next, n - 1, c + 1);
      var out, rest := Serve(handler, s, n), Serve(handler, next, n - 1);
      assert out.0 == [handler(s).0] + rest.0;
      forall i | 0 <= i < n ensures out.0[i] == answer(c + i) {
        if i > 0 {
          assert out.0[i] == rest.0[i - 1];
          assert c + i == c + 1 + (i - 1);
        }
      }
    }
  }

  /** A handler that never changes some view of the state leaves it unchanged
      over any number of requests. */
  lemma {:induction false} ServeKeeps<S, R, V>(handler: S -> (R, S), view: S -> V, s: S, n: nat)
    requires forall t :: view(handler(t).1) == view(t)
    ensures view(Serve(handler, s, n).1) == view(s)
    decreases n
  {
    if n > 0 {
      ServeKeeps(handler, view, handler(s).1, n - 1);
    }
  }

  /** The id file's counter, None when the file is missing or unreadable. */
  function Counter(s: Store): Option<int> {
    if s.idFile.Some? then ReadCounter(s.idFile.value) else None
  }

  /** Each GET on a readable counter answers with it and advances it by one. */
  lemma WelcomeAdvances(t: Store)
    requires Counter(t).Some?
    ensures Welcome(t).0 == WelcomeReply(Counter(t).value)
    ensures Counter(Welcome(t).1) == Some(Counter(t).value + 1)
  {
  }

  lemma WelcomeCounts()
    ensures forall t {:trigger Welcome(t)} :: Counter(t).Some? ==>
      Welcome(t).0 == WelcomeReply(Counter(t).value) && Counter(Welcome(t).1) == Some(Counter(t).value + 1)
  {
    forall t | Counter(t).Some?
      ensures Welcome(t).0 == WelcomeReply(Counter(t).value)
      ensures Counter(Welcome(t).1) == Some(Counter(t).value + 1)
    {
      WelcomeAdvances(t);
    }
  }

  /** Starting from a readable counter `c`, successive GETs hand out c, c + 1,
      c + 2, ..., all with the same key. */
  lemma ConsecutiveIds(s: Store, n: nat, c: int)
    requires Counter(s) == Some(c)
    ensures forall i :: 0 <= i < n ==> Serve(Welcome, s, n).0[i] == WelcomeReply(c + i)
  {
    WelcomeCounts();
    ServeCounts(Welcome, Counter, WelcomeReply, s, n, c);
  }

  /** The i-th of n successive GETs from a readable counter `c` hands out c + i. */
  lemma NthReply(s: Store, n: nat, c: int, i: nat)
    requires Counter(s) == Some(c)
    requires i < n
    ensures Serve(Welcome, s, n).0[i] == WelcomeReply(c + i)
  {
    ConsecutiveIds(s, n, c);
  }

  /** After n GETs from a readable counter `c` the id file reads c + n. */
  lemma CounterAfterGets(s: Store, n: nat, c: int)
    requires Counter(s) == Some(c)
    ensures Counter(Serve(Welcome, s, n).1) == Some(c + n)
  {
    WelcomeCounts();
    ServeCounts(Welcome, Counter, WelcomeReply, s, n, c);
  }

  /** GETs leave the data files alone. */
  lemma GetsKeepFiles(s: Store, n: nat)
    ensures Serve(Welcome, s, n).1.files == s.files
  {
    ServeKeeps(Welcome, (t: Store) => t.files, s, n);
  }

  /** A request the handler answers without changing the state is answered the
      same way however often it is repeated. */
  lemma {:induction false} ServeStuck<S, R>(handler: S -> (R, S), s: S, n: nat)
    requires handler(s).1 == s
    ensures forall i :: 0 <= i < n ==> Serve(handler, s, n).0[i] == handler(s).0
    ensures Serve(handler, s, n).1 == s
    decreases n
  {
    if n > 0 {
      ServeStuck(handler, s, n - 1);
      var out, rest := Serve(handler, s, n), Serve(handler, s, n - 1);
      forall i | 0 <= i < n ensures out.0[i] == handler(s).0 {
        if i > 0 {
          assert out.0[i] == rest.0[i - 1];
        }
      }
    }
  }

  /** Without a readable counter every GET fails and nothing changes. */
  lemma UnreadableCounterFailsAll(s: Store, n: nat)
    requires Counter(s).None?
    ensures forall i :: 0 <= i < n ==> Serve(Welcome, s, n).0[i] == InternalError
    ensures Serve(Welcome, s, n).1 == s
  {
    ServeStuck(Welcome, s, n);
  }

  /** Python slicing of a PUT body at `filename_length`: the name part and the
      data part, the name part shorter when the body is. */
  function SplitUpload(content: Bytes): (parts: (Bytes, Bytes))
    ensures parts.0 + parts.1 == content
    ensures |parts.0| == if |content| < FilenameLength then |content| else FilenameLength
  {
    if |content| < FilenameLength then (content, [])
    else (content[..FilenameLength], content[FilenameLength..])
  }

  /** `f'./mysite/files/{user_id}.bytes'`. */
  function DataPath(userId: string): (path: string)
    ensures |path| == |FilesDir| + |userId| + |FileSuffix|
    ensures path[..|FilesDir|] == FilesDir
    ensures path[|FilesDir|..|FilesDir| + |userId|] == userId
    ensures path[|FilesDir| + |userId|..] == FileSuffix
  {
    FilesDir + userId + FileSuffix
  }

  /** Different names are stored under different paths. */
  lemma DataPathInjective(a: string, b: string)
    requires DataPath(a) == DataPath(b)
    ensures a == b
  {
    var k := |FilesDir|;
    assert DataPath(a)[k..k + |a|] == a;
    assert DataPath(b)[k..k + |b|] == b;
  }

  /** `save_data()`, the PUT handler. The name part must be valid UTF-8 or the
      handler raises before writing; otherwise the data part replaces whatever
      was stored under the name. */
  function SaveData(s: Store, content: Bytes): (out: (Response, Store))
    ensures out.0.Ok? <==> Utf8.Decode(SplitUpload(content).0).Some?
    ensures out.0.Ok? ==> out.0.body == UploadComplete
    ensures out.0.InternalError? ==> out.1 == s
    // a PUT never touches the id file
    ensures out.1.idFile == s.idFile
    ensures out.0.Ok? ==>
      var name := Utf8.Decode(SplitUpload(content).0).value;
      && out.1.files.Keys == s.files.Keys + {DataPath(name)}
      && out.1.files[DataPath(name)] == SplitUpload(content).1
      && forall p :: p in s.files && p != DataPath(name) ==> out.1.files[p] == s.files[p]
  {
    var (head, data) := SplitUpload(content);
    match Utf8.Decode(head)
    case None => (InternalError, s)
    case Some(userId) => (Ok(UploadComplete), s.(files := s.files[DataPath(userId) := data]))
  }

  /** Nothing of an accepted upload is lost: the stored bytes follow the
      encoding of the name they are stored under to give back the whole body. */
  lemma SaveDataLossless(s: Store, content: Bytes)
    requires SaveData(s, content).0.Ok?
    ensures var name := Utf8.Decode(SplitUpload(content).0).value;
      Utf8.Encode(name) + SaveData(s, content).1.files[DataPath(name)] == content
  {
    Utf8.EncodeDecode(SplitUpload(content).0);
  }

  /** A body that starts with a name whose encoding is exactly `filename_length`
      bytes is stored, all of the rest, under that name. */
  lemma SaveFramed(s: Store, name: string, data: Bytes)
    requires |Utf8.Encode(name)| == FilenameLength
    ensures SaveData(s, Utf8.Encode(name) + data)
            == (Ok(UploadComplete), s.(files := s.files[DataPath(name) := data]))
  {
    var content := Utf8.Encode(name) + data;
    assert SplitUpload(content) == (Utf8.Encode(name), data);
    Utf8.DecodeEncode(name);
  }

  /** A name that is one character too long: the server takes the first 35
      bytes as the name and stores the encoding of the rest of the name in
      front of the data. */
  lemma SaveShifted(s: Store, head: string, tail: string, data: Bytes)
    requires |Utf8.Encode(head)| == FilenameLength
    ensures SaveData(s, Utf8.Encode(head + tail) + data)
            == (Ok(UploadComplete), s.(files := s.files[DataPath(head) := Utf8.Encode(tail) + data]))
  {
    Utf8.EncodeAppend(head, tail);
    assert Utf8.Encode(head + tail) + data == Utf8.Encode(head) + (Utf8.Encode(tail) + data);
    SaveFramed(s, head, Utf8.Encode(tail) + data);
  }
}
