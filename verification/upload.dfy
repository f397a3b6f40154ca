/** The upload side of ConnectionHandler.cs: `UploadData(fileName, filePath)`
    starts `Upload()`, which encodes the name, reads the file, encrypts it
    under a fresh IV, sends name ++ IV ++ ciphertext in one PUT, and on a
    failed request starts itself again, with no counter. The disk, the IVs
    and the request results of the successive attempts are inputs. */
module Upload {
  import opened Base
  import Utf8
  import opened Crypto

  /** What one run of `Upload()` meets: the files on disk when it reads, the IV
      the generator yields, and how its PUT ends. */
  datatype Attempt = Attempt(disk: map<string, Bytes>, iv: Iv, result: HttpResult)

  /** Exceptions that end `Upload()` before it sends anything. */
  datatype UploadError =
    | FileUnreadable               // File.ReadAllBytes finds no file at the path
    | Encryption(error: CryptoError)

  /** The PUT body: the name's UTF-8 bytes followed by the encrypted blob, with
      no length or delimiter between them. */
  function UploadBuffer(name: string, encrypted: Bytes): (buf: Bytes)
    ensures |buf| == |Utf8.Encode(name)| + |encrypted|
    ensures buf[..|Utf8.Encode(name)|] == Utf8.Encode(name)
    ensures buf[|Utf8.Encode(name)|..] == encrypted
  {
    Utf8.Encode(name) + encrypted
  }

  /** One run of `Upload()` up to its PUT: encode the name, read the file,
      encrypt it, combine. */
  function PrepareUpload(name: string, path: string, key: Option<string>, a: Attempt, cipher: Cipher)
    : (r: Result<Bytes, UploadError>)
    ensures r.Success? <==> path in a.disk && Encrypt(key, a.iv, a.disk[path], cipher).Success?
    ensures path !in a.disk ==> r == Failure(FileUnreadable)
    ensures path in a.disk && r.Failure? ==> r.error == Encryption(Encrypt(key, a.iv, a.disk[path], cipher).error)
    ensures r.Success? ==> r.value == UploadBuffer(name, Encrypt(key, a.iv, a.disk[path], cipher).value)
  {
    if path !in a.disk then Failure(FileUnreadable)
    else
      match Encrypt(key, a.iv, a.disk[path], cipher)
      case Failure(e) => Failure(Encryption(e))
      case Success(blob) => Success(UploadBuffer(name, blob))
  }

  /** Where a chain of `Upload()` runs stands. */
  datatype UploadState =
    | Delivered                    // a PUT went through: "Upload complete!"
    | Pending                      // every PUT so far failed and another run is under way
    | Aborted(error: UploadError)  // a run threw before sending; nothing restarts it

  /** The bodies of the PUTs sent, in order, and where the chain stands. */
  datatype UploadRun = UploadRun(sent: seq<Bytes>, state: UploadState)

  /** One run of `Upload()` seen from outside: what it prepared and, if it sent
      that, how its PUT ended. */
  datatype Try = Try(prepared: Result<Bytes, UploadError>, result: HttpResult)

  /** The chain of runs: each run throws (the chain ends), or sends and is
      done on success, or starts the next run on a failed request. */
  function Chain(tries: seq<Try>): (u: UploadRun)
    ensures |u.sent| <= |tries|
    // PUT i carries exactly what run i prepared
    ensures forall i :: 0 <= i < |u.sent| ==> tries[i].prepared == Success(u.sent[i])
    // every PUT but the last one failed
    ensures forall i :: 0 <= i < |u.sent| - 1 ==> IsRequestError(tries[i].result)
    ensures u.state == Delivered ==>
      |u.sent| >= 1 && !IsRequestError(tries[|u.sent| - 1].result)
    ensures u.state == Pending ==>
      |u.sent| == |tries| && forall i :: 0 <= i < |tries| ==> IsRequestError(tries[i].result)
    ensures u.state.Aborted? ==>
      && |u.sent| < |tries|
      && tries[|u.sent|].prepared == Failure(u.state.error)
      && forall i :: 0 <= i < |u.sent| ==> IsRequestError(tries[i].result)
  {
    if tries == [] then UploadRun([], Pending)
    else
      match tries[0].prepared
      case Failure(e) => UploadRun([], Aborted(e))
      case Success(buf) =>
        if IsRequestError(tries[0].result) then
          var rest := Chain(tries[1..]);
          UploadRun([buf] + rest.sent, rest.state)
        else
          UploadRun([buf], Delivered)
  }

  /** What each run of the chain does under the circumstances of its attempt. */
  function Tries(name: string, path: string, key: Option<string>, attempts: seq<Attempt>, cipher: Cipher)
    : seq<Try>
  {
    seq(|attempts|, i requires 0 <= i < |attempts| =>
      Try(PrepareUpload(name, path, key, attempts[i], cipher), attempts[i].result))
  }

  /** The chain of `Upload()` runs that `UploadData(name, path)` starts, over the
      successive attempts' circumstances. */
  function RunUpload(name: string, path: string, key: Option<string>, attempts: seq<Attempt>, cipher: Cipher)
    : (u: UploadRun)
    ensures |u.sent| <= |attempts|
    ensures forall i :: 0 <= i < |u.sent| ==>
      PrepareUpload(name, path, key, attempts[i], cipher) == Success(u.sent[i])
    ensures forall i :: 0 <= i < |u.sent| - 1 ==> IsRequestError(attempts[i].result)
    ensures u.state == Delivered ==>
      |u.sent| >= 1 && !IsRequestError(attempts[|u.sent| - 1].result)
    ensures u.state == Pending ==>
      |u.sent| == |attempts| && forall i :: 0 <= i < |attempts| ==> IsRequestError(attempts[i].result)
    ensures u.state.Aborted? ==>
      && |u.sent| < |attempts|
      && PrepareUpload(name, path, key, attempts[|u.sent|], cipher) == Failure(u.state.error)
      && forall i :: 0 <= i < |u.sent| ==> IsRequestError(attempts[i].result)
  {
    Chain(Tries(name, path, key, attempts, cipher))
  }

  /** The attempt can be prepared: the file is there and the key is usable. */
  predicate Sendable(path: string, key: Option<string>, a: Attempt) {
    && path in a.disk
    && key.Some?
    && ValidAesKeyLength(|Utf8.Encode(key.value)|)
  }

  /** The PUT body of a sendable attempt: the name, then the attempt's IV, then
      the ciphertext of the file as read in that attempt. */
  lemma SentBody(name: string, path: string, key: Option<string>, a: Attempt, cipher: Cipher)
    requires Sendable(path, key, a)
    ensures PrepareUpload(name, path, key, a, cipher)
            == Success(Utf8.Encode(name) + a.iv + cipher(Utf8.Encode(key.value), a.iv, a.disk[path]))
  {
    var blob := Encrypt(key, a.iv, a.disk[path], cipher).value;
    var ct := cipher(Utf8.Encode(key.value), a.iv, a.disk[path]);
    assert blob == a.iv + ct;
    assert UploadBuffer(name, blob) == Utf8.Encode(name) + a.iv + ct;
  }

  /** No retry limit: for every n, n failed PUTs followed by a successful one
      deliver after exactly n + 1 PUTs, PUT i re-reading the file and using the
      IV of attempt i. */
  lemma DeliveredAfterFailures(
    name: string, path: string, key: Option<string>, attempts: seq<Attempt>, n: nat, cipher: Cipher)
    requires n < |attempts|
    requires forall i :: 0 <= i <= n ==> Sendable(path, key, attempts[i])
    requires forall i :: 0 <= i < n ==> IsRequestError(attempts[i].result)
    requires !IsRequestError(attempts[n].result)
    ensures RunUpload(name, path, key, attempts, cipher).state == Delivered
    ensures |RunUpload(name, path, key, attempts, cipher).sent| == n + 1
    ensures forall i :: 0 <= i <= n ==>
      RunUpload(name, path, key, attempts, cipher).sent[i]
      == Utf8.Encode(name) + attempts[i].iv
         + cipher(Utf8.Encode(key.value), attempts[i].iv, attempts[i].disk[path])
  {
    var u := RunUpload(name, path, key, attempts, cipher);
    forall i | 0 <= i <= n
      ensures PrepareUpload(name, path, key, attempts[i], cipher)
              == Success(Utf8.Encode(name) + attempts[i].iv
                         + cipher(Utf8.Encode(key.value), attempts[i].iv, attempts[i].disk[path]))
    {
      SentBody(name, path, key, attempts[i], cipher);
    }
  }

  /** While every PUT fails, the chain never gives up: it has sent one PUT per
      attempt and is still pending. */
  lemma NeverGivesUp(name: string, path: string, key: Option<string>, attempts: seq<Attempt>, cipher: Cipher)
    requires forall i :: 0 <= i < |attempts| ==> Sendable(path, key, attempts[i])
    requires forall i :: 0 <= i < |attempts| ==> IsRequestError(attempts[i].result)
    ensures RunUpload(name, path, key, attempts, cipher).state == Pending
    ensures |RunUpload(name, path, key, attempts, cipher).sent| == |attempts|
  {
    forall i | 0 <= i < |attempts|
      ensures PrepareUpload(name, path, key, attempts[i], cipher).Success?
    {
      SentBody(name, path, key, attempts[i], cipher);
    }
  }

  /** Without a usable key (no handshake yet, or a key of the wrong byte length)
      the first run throws in `Encrypt`: no PUT is ever sent and nothing retries. */
  lemma NoKeyNoRequest(name: string, path: string, key: Option<string>, attempts: seq<Attempt>, cipher: Cipher)
    requires |attempts| >= 1 && path in attempts[0].disk
    requires key.None? || !ValidAesKeyLength(|Utf8.Encode(key.value)|)
    ensures RunUpload(name, path, key, attempts, cipher).sent == []
    ensures RunUpload(name, path, key, attempts, cipher).state.Aborted?
    ensures RunUpload(name, path, key, attempts, cipher).state.error.Encryption?
  {
  }

  /** Each retry sends different bytes when the generator yields a different IV,
      even for the same file: the IV sits right after the name. */
  lemma RetriesDifferByIv(name: string, path: string, key: Option<string>, attempts: seq<Attempt>, cipher: Cipher, i: nat, j: nat)
    requires i < |RunUpload(name, path, key, attempts, cipher).sent|
    requires j < |RunUpload(name, path, key, attempts, cipher).sent|
    requires attempts[i].iv != attempts[j].iv
    ensures RunUpload(name, path, key, attempts, cipher).sent[i]
            != RunUpload(name, path, key, attempts, cipher).sent[j]
  {
    var u := RunUpload(name, path, key, attempts, cipher);
    var k := |Utf8.Encode(name)|;
    var bi := Encrypt(key, attempts[i].iv, attempts[i].disk[path], cipher).value;
    var bj := Encrypt(key, attempts[j].iv, attempts[j].disk[path], cipher).value;
    assert u.sent[i][k..] == bi && u.sent[j][k..] == bj;
    assert bi[..IvLength] != bj[..IvLength];
  }
}
