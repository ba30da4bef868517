/**
 * The header check of saveImage (SurveyController lines 217-254): an uploaded
 * image arrives as a data URI `data:image/<subtype>;base64,<payload>`; the
 * subtype is lowercased and whitelisted, the payload base64-decoded, and the
 * file named `images/<random name>.<subtype>`. Decoding and the random name
 * are parameters; writing the file is not modelled, so the result carries the
 * bytes the file would hold.
 */
module Images {
  import opened Wrappers

  newtype byte = x: int | 0 <= x < 256

  /** The three exceptions saveImage throws (lines 226, 233, 236). */
  datatype ImageError = NotDataUri | UnsupportedType(subtype: string) | DecodeFailed

  /** Where the image goes and what the file holds. */
  datatype ImageFile = ImageFile(path: string, content: seq<byte>)

  const Prefix: string := "data:image/"
  const Marker: string := ";base64,"
  const AllowedTypes: set<string> := {"jpg", "jpeg", "gif", "png"}

  /** PCRE's `\w` without the `u` flag. */
  predicate IsWordChar(c: char) {
    ('a' <= c <= 'z') || ('A' <= c <= 'Z') || ('0' <= c <= '9') || c == '_'
  }

  /** A string `(\w+)` can capture. */
  predicate IsSubtype(s: string) {
    |s| > 0 && forall k :: 0 <= k < |s| ==> IsWordChar(s[k])
  }

  /** strtolower, which maps ASCII letters only. */
  function LowerChar(c: char): char {
    if 'A' <= c <= 'Z' then (c as int + 32) as char else c
  }

  function Lower(s: string): (r: string)
    ensures |r| == |s| && forall k :: 0 <= k < |s| ==> r[k] == LowerChar(s[k])
  {
    seq(|s|, k requires 0 <= k < |s| => LowerChar(s[k]))
  }

  /** `s` spells `t` with any of `t`'s lowercase letters written in upper case. */
  predicate CaseVariant(s: string, t: string) {
    |s| == |t| && forall k :: 0 <= k < |s| ==> s[k] == t[k] || ('a' <= t[k] <= 'z' && s[k] as int == t[k] as int - 32)
  }

  /** Lowering a string a second time changes nothing. */
  lemma LowerIdempotent(s: string)
    ensures Lower(Lower(s)) == Lower(s)
  {
    forall k | 0 <= k < |s| ensures Lower(Lower(s))[k] == Lower(s)[k] {
      assert Lower(s)[k] == LowerChar(s[k]);
    }
  }

  /** A string without A-Z is its own lowercase form. */
  lemma LowerKeepsLowercase(s: string)
    requires forall k :: 0 <= k < |s| ==> !('A' <= s[k] <= 'Z')
    ensures Lower(s) == s
  {
    forall k | 0 <= k < |s| ensures Lower(s)[k] == s[k] {
    }
  }

  /** For a string `t` without A-Z, strtolower gives `t` exactly from the case variants of `t`. */
  lemma LowerIsCaseVariant(s: string, t: string)
    requires forall k :: 0 <= k < |t| ==> !('A' <= t[k] <= 'Z')
    ensures Lower(s) == t <==> CaseVariant(s, t)
  {
    if CaseVariant(s, t) {
      forall k | 0 <= k < |s| ensures Lower(s)[k] == t[k] {
        assert Lower(s)[k] == LowerChar(s[k]);
      }
    }
    if Lower(s) == t {
      forall k | 0 <= k < |s| ensures s[k] == t[k] || ('a' <= t[k] <= 'z' && s[k] as int == t[k] as int - 32) {
        assert t[k] == LowerChar(s[k]);
      }
    }
  }

  /** The whitelist check of line 225 accepts exactly the case variants of jpg, jpeg, gif and png. */
  lemma LowerAllowed(s: string)
    ensures Lower(s) in AllowedTypes <==> exists t :: t in AllowedTypes && CaseVariant(s, t)
  {
    forall t | t in AllowedTypes ensures Lower(s) == t <==> CaseVariant(s, t) {
      LowerIsCaseVariant(s, t);
    }
  }

  /** The data URI with the given subtype and payload. */
  function DataUri(subtype: string, payload: string): string {
    Prefix + subtype + Marker + payload
  }

  /** The length of the longest prefix of word characters. */
  function WordRun(s: string): (n: nat)
    ensures n <= |s|
    ensures forall k :: 0 <= k < n ==> IsWordChar(s[k])
    ensures n < |s| ==> !IsWordChar(s[n])
    decreases |s|
  {
    if s != [] && IsWordChar(s[0]) then 1 + WordRun(s[1..]) else 0
  }

  /**
   * `preg_match('/^data:image\/(\w+);base64,/', $s, $type)`, giving the capture.
   * `\w+` cannot give back characters, since the `;` after it is no word
   * character, so the capture is the longest run of word characters after the
   * prefix and the match needs `;base64,` right behind it.
   */
  function MatchHeader(s: string): Option<string> {
    if |s| >= |Prefix| && s[..|Prefix|] == Prefix then
      var rest := s[|Prefix|..];
      var n := WordRun(rest);
      if n > 0 && |rest| >= n + |Marker| && rest[n..n + |Marker|] == Marker then Some(rest[..n]) else None
    else None
  }

  /** `strpos($s, $c)`. */
  function IndexOf(s: string, c: char): (r: Option<nat>)
    ensures r.Some? ==> r.value < |s| && s[r.value] == c && forall k :: 0 <= k < r.value ==> s[k] != c
    ensures r.None? ==> forall k :: 0 <= k < |s| ==> s[k] != c
    decreases |s|
  {
    if s == [] then None
    else if s[0] == c then Some(0)
    else match IndexOf(s[1..], c)
      case None => None
      case Some(i) => Some(i + 1)
  }

  /** A matched header has no comma before the one that ends it. */
  lemma HeaderComma(s: string)
    requires MatchHeader(s).Some?
    ensures IndexOf(s, ',') == Some(|Prefix| + |MatchHeader(s).value| + |Marker| - 1)
    ensures s == DataUri(MatchHeader(s).value, s[|Prefix| + |MatchHeader(s).value| + |Marker|..])
  {
    var sub := MatchHeader(s).value;
    var rest := s[|Prefix|..];
    assert |sub| == WordRun(rest);
    assert rest[..|sub|] == sub && rest[|sub|..|sub| + |Marker|] == Marker;
    CommaAfterHeader(s, sub);
  }

  /** The layout of a header `Prefix + sub + Marker`, stated without the matcher. */
  lemma CommaAfterHeader(s: string, sub: string)
    requires |s| >= |Prefix| + |sub| + |Marker| && s[..|Prefix|] == Prefix
    requires s[|Prefix|..][..|sub|] == sub && IsSubtype(sub)
    requires s[|Prefix|..][|sub|..|sub| + |Marker|] == Marker
    ensures IndexOf(s, ',') == Some(|Prefix| + |sub| + |Marker| - 1)
    ensures s == DataUri(sub, s[|Prefix| + |sub| + |Marker|..])
  {
    var n := |sub|;
    var j := |Prefix| + n + |Marker| - 1;
    forall k | 0 <= k <= j ensures s[k] == (Prefix + sub + Marker)[k] {
      if k < |Prefix| {
        assert s[k] == s[..|Prefix|][k];
      } else if k < |Prefix| + n {
        assert s[k] == s[|Prefix|..][..n][k - |Prefix|];
      } else {
        assert s[k] == s[|Prefix|..][n..n + |Marker|][k - |Prefix| - n];
      }
    }
    HeaderSplit(s, Prefix + sub + Marker);
    FirstIndex(s, ',', j);
  }

  /** A string that starts with `head` is `head` followed by the rest. */
  lemma HeaderSplit(s: string, head: string)
    requires |head| <= |s| && forall k :: 0 <= k < |head| ==> s[k] == head[k]
    ensures s == head + s[|head|..]
  {
    assert s[..|head|] == head;
    assert s == s[..|head|] + s[|head|..];
  }

  /** strpos finds the first occurrence. */
  lemma FirstIndex(s: string, c: char, j: nat)
    requires j < |s| && s[j] == c
    requires forall k :: 0 <= k < j ==> s[k] != c
    ensures IndexOf(s, c) == Some(j)
  {
  }

  /**
   * saveImage up to the write (lines 220-242): the decoded bytes and the path
   * `images/<name>.<lowercased subtype>`, or the exception it throws.
   */
  function SaveImage(uri: string, name: string, decode: string -> Option<seq<byte>>): (r: Result<ImageFile, ImageError>)
    ensures r.Success? ==> MatchHeader(uri).Some? && r.value.path == "images/" + name + "." + Lower(MatchHeader(uri).value)
  {
    match MatchHeader(uri)
    case None => Failure(NotDataUri)
    case Some(subtype) =>
      HeaderComma(uri);
      var payload := uri[IndexOf(uri, ',').value + 1..];
      var kind := Lower(subtype);
      if kind !in AllowedTypes then Failure(UnsupportedType(kind))
      else match decode(payload)
        case None => Failure(DecodeFailed)
        case Some(bytes) => Success(ImageFile("images/" + name + "." + kind, bytes))
  }

  /** A data URI is matched with its own subtype, and the payload is everything after the header. */
  lemma {:induction false} MatchDataUri(subtype: string, payload: string)
    requires IsSubtype(subtype)
    ensures MatchHeader(DataUri(subtype, payload)) == Some(subtype)
  {
    var s := DataUri(subtype, payload);
    assert s[..|Prefix|] == Prefix;
    var rest := s[|Prefix|..];
    assert rest == subtype + Marker + payload;
    WordRunOfSubtype(subtype, Marker + payload);
    assert rest[|subtype|..|subtype| + |Marker|] == Marker;
    assert rest[..|subtype|] == subtype;
  }

  lemma {:induction false} WordRunOfSubtype(w: string, tail: string)
    requires forall k :: 0 <= k < |w| ==> IsWordChar(w[k])
    requires tail != [] && !IsWordChar(tail[0])
    ensures WordRun(w + tail) == |w|
    decreases |w|
  {
    if w != [] {
      assert (w + tail)[1..] == w[1..] + tail;
      WordRunOfSubtype(w[1..], tail);
    } else {
      assert w + tail == tail;
    }
  }

  /** Every data URI with a whitelisted subtype and a decodable payload is stored. */
  lemma SaveImageAccepts(subtype: string, payload: string, name: string, decode: string -> Option<seq<byte>>)
    requires IsSubtype(subtype) && Lower(subtype) in AllowedTypes && decode(payload).Some?
    ensures SaveImage(DataUri(subtype, payload), name, decode)
         == Success(ImageFile("images/" + name + "." + Lower(subtype), decode(payload).value))
  {
    var s := DataUri(subtype, payload);
    MatchDataUri(subtype, payload);
    HeaderComma(s);
  }

  /** A subtype outside jpg, jpeg, gif and png is refused before anything is decoded. */
  lemma SaveImageRejectsType(subtype: string, payload: string, name: string, decode: string -> Option<seq<byte>>)
    requires IsSubtype(subtype) && Lower(subtype) !in AllowedTypes
    ensures SaveImage(DataUri(subtype, payload), name, decode) == Failure(UnsupportedType(Lower(subtype)))
  {
    MatchDataUri(subtype, payload);
  }

  /** A payload that does not decode is refused. */
  lemma SaveImageRejectsUndecodable(subtype: string, payload: string, name: string, decode: string -> Option<seq<byte>>)
    requires IsSubtype(subtype) && Lower(subtype) in AllowedTypes && decode(payload).None?
    ensures SaveImage(DataUri(subtype, payload), name, decode) == Failure(DecodeFailed)
  {
    var s := DataUri(subtype, payload);
    MatchDataUri(subtype, payload);
    HeaderComma(s);
  }

  /** Only data URIs with a whitelisted subtype and a decodable payload are stored. */
  lemma SaveImageOnlyDataUris(uri: string, name: string, decode: string -> Option<seq<byte>>)
    requires SaveImage(uri, name, decode).Success?
    ensures exists subtype, payload ::
      && IsSubtype(subtype) && uri == DataUri(subtype, payload)
      && Lower(subtype) in AllowedTypes && decode(payload).Some?
  {
    var subtype := MatchHeader(uri).value;
    HeaderComma(uri);
    var payload := uri[|Prefix| + |subtype| + |Marker|..];
    var rest := uri[|Prefix|..];
    assert subtype == rest[..WordRun(rest)];
    assert IsSubtype(subtype);
    assert uri == DataUri(subtype, payload);
  }

  /** A string that is no image data URI is refused as such. */
  lemma NonDataUriRejected(uri: string, name: string, decode: string -> Option<seq<byte>>)
    requires forall subtype, payload :: IsSubtype(subtype) ==> uri != DataUri(subtype, payload)
    ensures SaveImage(uri, name, decode) == Failure(NotDataUri)
  {
    if MatchHeader(uri).Some? {
      var subtype := MatchHeader(uri).value;
      HeaderComma(uri);
      var rest := uri[|Prefix|..];
      assert subtype == rest[..WordRun(rest)];
      assert IsSubtype(subtype);
      assert false;
    }
  }
}
