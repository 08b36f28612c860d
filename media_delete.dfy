/**
 * The `POST /api/media/delete` route: it reads `fileUrl` from the request
 * body, takes the storage key out of the URL's pathname with
 * `pathname.split('/game-media/')[1]`, and asks the `game-media` bucket to
 * remove that one key.
 *
 * Reading the body and `new URL(...)` are outside the model: their outcomes
 * are inputs (`RequestBody`, `parseUrl`).  The bucket is an object that
 * records every `remove` call; what `remove` reports is its `outcome`.
 */
module MediaDelete {
  import opened Wrappers

  /** The bucket's public-path segment the handler splits on. */
  const GameMediaSeparator: string := "/game-media/"

  const FileUrlRequired: string := "ファイルURLが必要です"
  const InvalidFileUrl: string := "無効なファイルURLです"
  const FileDeleted: string := "ファイルが正常に削除されました"
  const DeleteFailed: string := "ファイルの削除に失敗しました"

  // ---------------------------------------------------------------------------
  // `String.prototype.split` with a non-empty string separator
  // ---------------------------------------------------------------------------

  /** `sep` occurs in `s` starting at index `i`. */
  predicate OccursAt(s: string, sep: string, i: int) {
    0 <= i && i + |sep| <= |s| && s[i..i + |sep|] == sep
  }

  predicate Contains(s: string, sep: string) {
    exists i :: 0 <= i <= |s| && OccursAt(s, sep, i)
  }

  /** `s.indexOf(sep, from)`: the leftmost occurrence at or after `from`. */
  function IndexOf(s: string, sep: string, from: nat): (r: Option<nat>)
    requires |sep| > 0
    ensures r.Some? ==> from <= r.value && OccursAt(s, sep, r.value)
    ensures r.Some? ==> forall j :: from <= j < r.value ==> !OccursAt(s, sep, j)
    ensures r.None? ==> forall j :: from <= j ==> !OccursAt(s, sep, j)
    decreases |s| - from
  {
    if from + |sep| > |s| then None
    else if s[from..from + |sep|] == sep then Some(from)
    else IndexOf(s, sep, from + 1)
  }

  /** The inverse of splitting: the pieces glued back together with `sep` between them. */
  function Join(parts: seq<string>, sep: string): string
    requires |parts| > 0
  {
    if |parts| == 1 then parts[0] else parts[0] + sep + Join(parts[1..], sep)
  }

  /** An occurrence inside a prefix of `s` is an occurrence in `s`. */
  lemma OccursInPrefix(s: string, sep: string, n: nat, j: int)
    requires n <= |s| && OccursAt(s[..n], sep, j)
    ensures OccursAt(s, sep, j) && j + |sep| <= n
  {
    assert s[..n][j..j + |sep|] == s[j..j + |sep|];
  }

  /** No occurrence fits before the leftmost one. */
  lemma NoneBeforeFirst(s: string, sep: string, i: nat)
    requires |sep| > 0 && IndexOf(s, sep, 0) == Some(i)
    ensures !Contains(s[..i], sep)
  {
    forall j | 0 <= j <= i && OccursAt(s[..i], sep, j)
      ensures OccursAt(s, sep, j) && j < i
    {
      OccursInPrefix(s, sep, i, j);
    }
  }

  /** At an occurrence `i`, `s` is the text before it, the separator, and the rest. */
  lemma SplitAround(s: string, sep: string, i: nat)
    requires OccursAt(s, sep, i)
    ensures s == s[..i] + sep + s[i + |sep|..]
  {
    assert s[i..] == s[i..i + |sep|] + s[i + |sep|..];
    assert s == s[..i] + s[i..];
  }

  /**
   * `s.split(sep)`: the pieces between leftmost, non-overlapping occurrences
   * of `sep`, scanning left to right.  No piece contains `sep`, joining the
   * pieces gives back `s`, there is more than one piece exactly when `sep`
   * occurs in `s`, and then the first piece ends at the leftmost occurrence.
   */
  function Split(s: string, sep: string): (parts: seq<string>)
    requires |sep| > 0
    ensures |parts| > 0 && Join(parts, sep) == s
    ensures forall k :: 0 <= k < |parts| ==> !Contains(parts[k], sep)
    ensures |parts| == 1 <==> !Contains(s, sep)
    ensures |parts| > 1 ==> IndexOf(s, sep, 0) == Some(|parts[0]|)
    decreases |s|
  {
    match IndexOf(s, sep, 0)
    case None => [s]
    case Some(i) =>
      NoneBeforeFirst(s, sep, i);
      SplitAround(s, sep, i);
      var rest := Split(s[i + |sep|..], sep);
      var parts := [s[..i]] + rest;
      assert parts[1..] == rest;
      parts
  }

  // ---------------------------------------------------------------------------
  // Storage-key extraction
  // ---------------------------------------------------------------------------

  /**
   * `pathname.split('/game-media/')[1]`: the text between the first and the
   * second occurrence of the separator (or the end), and `undefined` when
   * the separator does not occur.
   */
  function ExtractKey(pathname: string): (key: Option<string>)
    ensures key.None? <==> !Contains(pathname, GameMediaSeparator)
    ensures key.Some? ==> !Contains(key.value, GameMediaSeparator)
  {
    var parts := Split(pathname, GameMediaSeparator);
    if |parts| > 1 then Some(parts[1]) else None
  }

  /**
   * No occurrence of the separator starts inside `p` when `p` is followed by
   * the separator: `p` does not contain it, and no suffix of `p` runs on
   * into it.
   */
  predicate NoEarlyMatch(p: string, sep: string)
    requires |sep| > 0
  {
    !Contains(p + sep[..|sep| - 1], sep)
  }

  /** The characters every occurrence of the separator fixes. */
  lemma OccurrenceChars(s: string, j: int)
    requires OccursAt(s, GameMediaSeparator, j)
    ensures s[j] == '/' && s[j + 5] == '-' && s[j + 11] == '/'
  {
    assert s[j..j + 12][0] == '/' && s[j..j + 12][5] == '-' && s[j..j + 12][11] == '/';
  }

  /** An occurrence that ends within the first `n` characters is an occurrence in the prefix of length `n`. */
  lemma OccursInTakenPrefix(s: string, sep: string, n: nat, j: int)
    requires n <= |s| && OccursAt(s, sep, j) && j + |sep| <= n
    ensures OccursAt(s[..n], sep, j)
  {
    assert s[..n][j..j + |sep|] == s[j..j + |sep|];
  }

  /** After such a prefix, the first occurrence of the separator is the one right after it. */
  lemma FirstOccurrenceAfter(p: string, sep: string, rest: string)
    requires |sep| > 0 && NoEarlyMatch(p, sep)
    ensures IndexOf(p + sep + rest, sep, 0) == Some(|p|)
  {
    var s := p + sep + rest;
    var t := p + sep[..|sep| - 1];
    assert s[|p|..|p| + |sep|] == sep;
    assert OccursAt(s, sep, |p|);
    assert s[..|t|] == t;
    forall j | 0 <= j < |p| && OccursAt(s, sep, j)
      ensures OccursAt(t, sep, j)
    {
      OccursInTakenPrefix(s, sep, |t|, j);
    }
  }

  /** Splitting `p + sep + rest` yields `p` and then the pieces of `rest`. */
  lemma SplitAfterPrefix(p: string, sep: string, rest: string)
    requires |sep| > 0 && NoEarlyMatch(p, sep)
    ensures Split(p + sep + rest, sep) == [p] + Split(rest, sep)
  {
    var s := p + sep + rest;
    FirstOccurrenceAfter(p, sep, rest);
    assert s[..|p|] == p;
    assert s[|p| + |sep|..] == rest;
  }

  /** The second piece of `p + sep + k + sep + rest` is `k`. */
  lemma SecondPiece(p: string, sep: string, k: string, rest: string)
    requires |sep| > 0 && NoEarlyMatch(p, sep) && NoEarlyMatch(k, sep)
    ensures |Split(p + sep + (k + sep + rest), sep)| > 1
    ensures Split(p + sep + (k + sep + rest), sep)[1] == k
  {
    SplitAfterPrefix(p, sep, k + sep + rest);
    SplitAfterPrefix(k, sep, rest);
  }

  /** For a pathname `p + "/game-media/" + k` with the separator nowhere else, the key is exactly `k`. */
  lemma ExtractKeyOfJoined(p: string, k: string)
    requires NoEarlyMatch(p, GameMediaSeparator) && !Contains(k, GameMediaSeparator)
    ensures ExtractKey(p + GameMediaSeparator + k) == Some(k)
  {
    SplitAfterPrefix(p, GameMediaSeparator, k);
  }

  /** When the separator occurs again after the key, the key stops at that second occurrence. */
  lemma ExtractKeyStopsAtSecond(p: string, k: string, rest: string)
    requires NoEarlyMatch(p, GameMediaSeparator) && NoEarlyMatch(k, GameMediaSeparator)
    ensures ExtractKey(p + GameMediaSeparator + k + GameMediaSeparator + rest) == Some(k)
  {
    var sep := GameMediaSeparator;
    assert p + sep + k + sep + rest == p + sep + (k + sep + rest);
    SecondPiece(p, sep, k, rest);
  }

  /**
   * An occurrence that starts inside `p` and runs on into the separator
   * after it can only start 11 characters before the end of `p`, where `p`
   * ends with `/game-media`: the separator's only border is its `/`.
   */
  lemma OverlapIsSeparatorHead(p: string, j: int)
    requires OccursAt(p + GameMediaSeparator[..|GameMediaSeparator| - 1], GameMediaSeparator, j)
    requires j + |GameMediaSeparator| > |p|
    ensures j == |p| - 11 && p[j..] == "/game-media"
  {
    var sep := GameMediaSeparator;
    var t := p + sep[..|sep| - 1];
    var d := |p| - j;
    assert t[j..j + |sep|] == sep;
    assert t[|p|] == '/';
    assert sep[d] == t[j..j + |sep|][d] == t[|p|];
    assert d == 11;
    assert p[j..] == t[j..j + 11] == sep[..11];
  }

  /**
   * A prefix that does not contain the separator and does not end with
   * `/game-media` (the separator minus its final `/`) cannot run on into it.
   */
  lemma NoEarlyMatchWhen(p: string)
    requires !Contains(p, GameMediaSeparator)
    requires !(|p| >= 11 && p[|p| - 11..] == "/game-media")
    ensures NoEarlyMatch(p, GameMediaSeparator)
  {
    var sep := GameMediaSeparator;
    var t := p + sep[..|sep| - 1];
    forall j | OccursAt(t, sep, j)
      ensures false
    {
      if j + |sep| <= |p| {
        assert t[j..j + |sep|] == p[j..j + |sep|];
        assert OccursAt(p, sep, j);
      } else {
        OverlapIsSeparatorHead(p, j);
      }
    }
  }

  /** A prefix without a `-` cannot hold or run on into the separator. */
  lemma NoDashNoEarlyMatch(p: string)
    requires forall i :: 0 <= i < |p| ==> p[i] != '-'
    ensures NoEarlyMatch(p, GameMediaSeparator)
  {
    var t := p + GameMediaSeparator[..|GameMediaSeparator| - 1];
    forall j | OccursAt(t, GameMediaSeparator, j)
      ensures false
    {
      OccurrenceChars(t, j);
    }
  }

  /** A public object URL, `.../storage/v1/object/public/game-media/<key>`, yields the object's key. */
  lemma PublicObjectUrlKey(k: string)
    requires !Contains(k, GameMediaSeparator)
    ensures ExtractKey("/storage/v1/object/public" + GameMediaSeparator + k) == Some(k)
  {
    NoDashNoEarlyMatch("/storage/v1/object/public");
    ExtractKeyOfJoined("/storage/v1/object/public", k);
  }

  /**
   * "Neither `p` nor `k` contains the separator" is not enough for the key to
   * be `k`: a prefix ending in `/game-media` forms an earlier occurrence with
   * the separator's leading `/`.
   */
  lemma OverlappingPrefixShiftsKey()
    ensures !Contains("/game-media", GameMediaSeparator) && !Contains("a.png", GameMediaSeparator)
    ensures ExtractKey("/game-media" + GameMediaSeparator + "a.png") == Some("game-media/a.png")
  {
    var k := "game-media/a.png";
    assert "/game-media" + GameMediaSeparator + "a.png" == "" + GameMediaSeparator + k;
    assert !Contains(k, GameMediaSeparator) by {
      forall j | OccursAt(k, GameMediaSeparator, j)
        ensures false
      {
        OccurrenceChars(k, j);
      }
    }
    ExtractKeyOfJoined("", k);
  }

  // ---------------------------------------------------------------------------
  // The handler
  // ---------------------------------------------------------------------------

  /** The values `fileUrl` can take in a JSON request body (numbers as integers). */
  datatype JsValue = Undefined | Null | Bool(b: bool) | Number(n: int) | Str(s: string) | Object

  /** JavaScript truthiness (`!v` is false): every value except the falsy ones listed. */
  predicate Truthy(v: JsValue): (b: bool)
    ensures !b <==> v in {Undefined, Null, Bool(false), Number(0), Str("")}
  {
    match v
    case Undefined => false
    case Null => false
    case Bool(b) => b
    case Number(n) => n != 0
    case Str(s) => s != ""
    case Object => true
  }

  /** What `const { fileUrl } = await request.json()` produced: a value, or a thrown error. */
  datatype RequestBody = Unreadable(message: string) | Body(fileUrl: JsValue)

  /** What `new URL(fileUrl)` produced: its pathname, or a thrown error. */
  datatype UrlParse = ParseFailed(message: string) | Pathname(path: string)

  /** What the bucket's `remove` reported. */
  datatype StorageResult = Removed | StorageError(message: string)

  datatype ResponseBody = ErrorBody(error: string) | MessageBody(message: string)
  datatype Response = Response(status: int, body: ResponseBody)

  /** `error.message || 'ファイルの削除に失敗しました'`; a missing message is the empty string. */
  function MessageOrDefault(message: string): (m: string)
    ensures m != ""
    ensures message != "" ==> m == message
  {
    if message != "" then message else DeleteFailed
  }

  /** The response the `catch` block builds for a thrown error. */
  function Failure(message: string): (r: Response)
    ensures r.status == 500 && r.body.ErrorBody? && r.body.error != ""
  {
    Response(500, ErrorBody(MessageOrDefault(message)))
  }

  /** The response once the bucket's `remove` has reported. */
  function RemoveResponse(result: StorageResult): (r: Response)
    ensures result.Removed? ==> r == Response(200, MessageBody(FileDeleted))
    ensures result.StorageError? ==> r == Failure(result.message)
  {
    match result
    case Removed => Response(200, MessageBody(FileDeleted))
    case StorageError(message) => Failure(message)
  }

  /**
   * The key the handler asks storage to remove: present only when the body
   * was read, `fileUrl` is truthy, the URL parsed, and its pathname yields a
   * non-empty key (`!filePath` rejects `undefined` and `""`).
   */
  function KeyToRemove(body: RequestBody, parseUrl: JsValue -> UrlParse): (key: Option<string>)
    ensures body.Unreadable? ==> key.None?
    ensures body.Body? && !Truthy(body.fileUrl) ==> key.None?
    ensures body.Body? && parseUrl(body.fileUrl).ParseFailed? ==> key.None?
    ensures (body.Body? && parseUrl(body.fileUrl).Pathname? &&
             !Contains(parseUrl(body.fileUrl).path, GameMediaSeparator)) ==> key.None?
    ensures key.Some? <==>
              body.Body? && Truthy(body.fileUrl) && parseUrl(body.fileUrl).Pathname? &&
              ExtractKey(parseUrl(body.fileUrl).path).Some? &&
              ExtractKey(parseUrl(body.fileUrl).path).value != ""
    ensures key.Some? ==> key.value != "" && !Contains(key.value, GameMediaSeparator) &&
                          ExtractKey(parseUrl(body.fileUrl).path) == key
  {
    if body.Unreadable? || !Truthy(body.fileUrl) then None
    else
      match parseUrl(body.fileUrl)
      case ParseFailed(_) => None
      case Pathname(path) =>
        var filePath := ExtractKey(path);
        if filePath.None? || filePath.value == "" then None else filePath
  }

  /**
   * The 400/500/200 decision: an unreadable body answers 500; a missing or
   * falsy `fileUrl` answers 400; an unparsable URL throws inside the `try`
   * and answers 500, not 400; a pathname without the separator, or with an
   * empty key, answers 400; otherwise the answer is what storage reported.
   */
  function Respond(body: RequestBody, parseUrl: JsValue -> UrlParse,
                   outcome: seq<string> -> StorageResult): (resp: Response)
    ensures body.Unreadable? ==> resp == Failure(body.message)
    ensures body.Body? && !Truthy(body.fileUrl) ==> resp == Response(400, ErrorBody(FileUrlRequired))
    ensures body.Body? && Truthy(body.fileUrl) && parseUrl(body.fileUrl).ParseFailed? ==>
              resp == Failure(parseUrl(body.fileUrl).message)
    ensures (body.Body? && Truthy(body.fileUrl) && parseUrl(body.fileUrl).Pathname? &&
             KeyToRemove(body, parseUrl).None?) ==> resp == Response(400, ErrorBody(InvalidFileUrl))
    ensures KeyToRemove(body, parseUrl).Some? ==>
              resp == RemoveResponse(outcome([KeyToRemove(body, parseUrl).value]))
    ensures resp.status in {200, 400, 500}
  {
    if body.Unreadable? then Failure(body.message)
    else if !Truthy(body.fileUrl) then Response(400, ErrorBody(FileUrlRequired))
    else
      match parseUrl(body.fileUrl)
      case ParseFailed(message) => Failure(message)
      case Pathname(_) =>
        match KeyToRemove(body, parseUrl)
        case None => Response(400, ErrorBody(InvalidFileUrl))
        case Some(key) => RemoveResponse(outcome([key]))
  }

  /**
   * The `game-media` bucket.  `outcome` gives what `remove` reports for a
   * list of keys; `removed` records every list `remove` was called with.
   */
  class MediaBucket {
    const outcome: seq<string> -> StorageResult
    ghost var removed: seq<seq<string>>

    constructor (outcome: seq<string> -> StorageResult)
      ensures this.outcome == outcome && removed == []
    {
      this.outcome := outcome;
      removed := [];
    }

    /** `supabase.storage.from('game-media').remove(keys)`. */
    method Remove(keys: seq<string>) returns (result: StorageResult)
      modifies this
      ensures removed == old(removed) + [keys]
      ensures result == outcome(keys)
    {
      result := outcome(keys);
      removed := removed + [keys];
    }
  }

  /**
   * The handler, step by step with its early returns.  `parseUrl` stands for
   * `new URL(...)`.  Storage is called at most once, with the one-element
   * list holding the extracted key, and only after both checks passed; the
   * response is `Respond`'s decision.
   */
  method Post(body: RequestBody, parseUrl: JsValue -> UrlParse, bucket: MediaBucket)
    returns (resp: Response)
    modifies bucket
    ensures resp == Respond(body, parseUrl, bucket.outcome)
    ensures KeyToRemove(body, parseUrl).None? ==> bucket.removed == old(bucket.removed)
    ensures KeyToRemove(body, parseUrl).Some? ==>
              bucket.removed == old(bucket.removed) + [[KeyToRemove(body, parseUrl).value]]
  {
    if body.Unreadable? {
      resp := Failure(body.message);
      return;
    }
    var fileUrl := body.fileUrl;
    if !Truthy(fileUrl) {
      resp := Response(400, ErrorBody(FileUrlRequired));
      return;
    }
    var urlObject := parseUrl(fileUrl);
    if urlObject.ParseFailed? {
      resp := Failure(urlObject.message);
      return;
    }
    var filePath := ExtractKey(urlObject.path);
    if filePath.None? || filePath.value == "" {
      resp := Response(400, ErrorBody(InvalidFileUrl));
      return;
    }
    var result := bucket.Remove([filePath.value]);
    if result.StorageError? {
      resp := Failure(result.message);
      return;
    }
    resp := Response(200, MessageBody(FileDeleted));
  }
}
