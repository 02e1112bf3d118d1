/**
  The two JSON pagination tokens of the connector.

  - User listing pages by offset: a token is `{"offset":N}`, and the listing
    ends when the next offset reaches the total.
  - Content discovery pages by offset under a server-issued paging request
    id: a token is `{"offset":N,"pagingRequestId":"S","finalOffset":F}`, and
    the listing ends only when the next offset passes the final offset, so the
    page that starts exactly at the final offset is still fetched.
 */
module Pagination {
  import opened Wrappers
  import opened GoInt
  import Json
  import Decimal

  /** The page size used when the caller does not ask for one. */
  const PageSizeDefault: Int64 := 1000

  /** The SDK's page token: a requested page size and the opaque token text. */
  datatype PageToken = PageToken(size: Int64, token: string)

  datatype UserPagination = UserPagination(offset: Int64)

  datatype ContentPagination = ContentPagination(offset: Int64, pagingRequestId: string, finalOffset: Int64)

  /** What a user token parse returns: Go's `(offset, limit, err)`. */
  datatype UserCursor = UserCursor(offset: Int64, limit: Int64, err: Option<Json.DecodeError>)

  /** What a content token parse returns: Go's `(offset, pagingRequestId, finalOffset, err)`. */
  datatype ContentCursor = ContentCursor(offset: Int64, pagingRequestId: string, finalOffset: Int64, err: Option<Json.DecodeError>)

  // ---------------------------------------------------------------------
  // The token codec

  function UserFields(p: UserPagination): seq<Json.Field> {
    [Json.Field("offset", Json.IntScalar(p.offset))]
  }

  function ContentFields(p: ContentPagination): seq<Json.Field> {
    [ Json.Field("offset", Json.IntScalar(p.offset)),
      Json.Field("pagingRequestId", Json.StrScalar(p.pagingRequestId)),
      Json.Field("finalOffset", Json.IntScalar(p.finalOffset)) ]
  }

  /** json.Marshal of a UserPagination. */
  function EncodeUserPagination(p: UserPagination): (s: string)
    ensures |s| >= 2 && s[0] == '{'
  {
    Json.SerializeObject(UserFields(p))
  }

  /** json.Marshal of a ContentPagination. */
  function EncodeContentPagination(p: ContentPagination): (s: string)
    ensures |s| >= 2 && s[0] == '{'
  {
    Json.SerializeObject(ContentFields(p))
  }

  /** A user token on the wire: `{"offset":N}`. */
  lemma UserPaginationText(p: UserPagination)
    ensures EncodeUserPagination(p) == "{\"offset\":" + Decimal.Itoa(p.offset) + "}"
  {
    var a := UserFields(p)[0];
    assert UserFields(p) == [a];
    Json.LettersUnescaped("offset");
    Json.OneFieldText(a);
    OffsetKey(Decimal.Itoa(p.offset));
  }

  /**
    A content token on the wire: `{"offset":N,"pagingRequestId":"S","finalOffset":F}`,
    with the paging request id quoted as a JSON string.
   */
  lemma ContentPaginationText(p: ContentPagination)
    ensures EncodeContentPagination(p)
         == "{\"offset\":" + Decimal.Itoa(p.offset) + ",\"pagingRequestId\":" + Json.Quote(p.pagingRequestId)
            + ",\"finalOffset\":" + Decimal.Itoa(p.finalOffset) + "}"
  {
    var fs := ContentFields(p);
    assert fs == [fs[0], fs[1], fs[2]];
    Json.LettersUnescaped("offset");
    Json.LettersUnescaped("pagingRequestId");
    Json.LettersUnescaped("finalOffset");
    Json.ThreeFieldsText(fs[0], fs[1], fs[2]);
    var x, q, y := Decimal.Itoa(p.offset), Json.Quote(p.pagingRequestId), Decimal.Itoa(p.finalOffset);
    ContentKeys(x, q, y);
  }

  lemma OffsetKey(x: string)
    ensures "{" + ("\"" + "offset" + "\":" + x) == "{\"offset\":" + x
  {
  }

  lemma ContentKeys(x: string, q: string, y: string)
    ensures "{" + ("\"" + "offset" + "\":" + x) + "," + ("\"" + "pagingRequestId" + "\":" + q)
            + "," + ("\"" + "finalOffset" + "\":" + y) + "}"
         == "{\"offset\":" + x + ",\"pagingRequestId\":" + q + ",\"finalOffset\":" + y + "}"
  {
    OffsetKey(x);
    var z1 := "{\"offset\":" + x;
    NextKey(z1, "pagingRequestId", q);
    KeyLiterals();
    var z2 := z1 + ",\"pagingRequestId\":" + q;
    NextKey(z2, "finalOffset", y);
  }

  lemma KeyLiterals()
    ensures ",\"" + "pagingRequestId" + "\":" == ",\"pagingRequestId\":"
    ensures ",\"" + "finalOffset" + "\":" == ",\"finalOffset\":"
  {
  }

  lemma NextKey(z: string, name: string, x: string)
    ensures z + "," + ("\"" + name + "\":" + x) == z + (",\"" + name + "\":") + x
  {
  }

  /** json.Unmarshal into a zero UserPagination. */
  function DecodeUserPagination(text: string): (r: Result<UserPagination, Json.DecodeError>)
    ensures Json.Parse(text).None? ==> r == Err(Json.InvalidSyntax)
    ensures Json.Parse(text) == Some(Json.Null) ==> r == Ok(UserPagination(0))
  {
    match Json.ObjectMembers(text)
    case Err(e) => Err(e)
    case Ok(None) => Ok(UserPagination(0))
    case Ok(Some(ms)) =>
      match Json.IntField(ms, "offset", 0)
      case Err(e) => Err(e)
      case Ok(o) => Ok(UserPagination(o))
  }

  /** json.Unmarshal into a zero ContentPagination. */
  function DecodeContentPagination(text: string): (r: Result<ContentPagination, Json.DecodeError>)
    ensures Json.Parse(text).None? ==> r == Err(Json.InvalidSyntax)
    ensures Json.Parse(text) == Some(Json.Null) ==> r == Ok(ContentPagination(0, "", 0))
  {
    match Json.ObjectMembers(text)
    case Err(e) => Err(e)
    case Ok(None) => Ok(ContentPagination(0, "", 0))
    case Ok(Some(ms)) =>
      match Json.IntField(ms, "offset", 0)
      case Err(e) => Err(e)
      case Ok(o) =>
        match Json.StringField(ms, "pagingRequestId", "")
        case Err(e) => Err(e)
        case Ok(id) =>
          match Json.IntField(ms, "finalOffset", 0)
          case Err(e) => Err(e)
          case Ok(f) => Ok(ContentPagination(o, id, f))
  }

  lemma UserPaginationRoundTrip(p: UserPagination)
    ensures DecodeUserPagination(EncodeUserPagination(p)) == Ok(p)
  {
    var fs := UserFields(p);
    Json.ObjectMembersSerialized(fs);
    Json.FieldPresent(fs, 0, "offset", 0, "");
  }

  /** Each field of an encoded ContentPagination decodes to its own value. */
  lemma ContentFieldsDecode(p: ContentPagination)
    ensures var ms := Json.Members(ContentFields(p));
      && Json.IntField(ms, "offset", 0) == Ok(p.offset)
      && Json.StringField(ms, "pagingRequestId", "") == Ok(p.pagingRequestId)
      && Json.IntField(ms, "finalOffset", 0) == Ok(p.finalOffset)
  {
    var fs := ContentFields(p);
    Json.LengthsDiffer("pagingRequestId", "offset");
    Json.LengthsDiffer("finalOffset", "offset");
    Json.LengthsDiffer("offset", "pagingRequestId");
    Json.LengthsDiffer("finalOffset", "pagingRequestId");
    Json.LengthsDiffer("offset", "finalOffset");
    Json.LengthsDiffer("pagingRequestId", "finalOffset");
    Json.FieldPresent(fs, 0, "offset", 0, "");
    Json.FieldPresent(fs, 1, "pagingRequestId", 0, "");
    Json.FieldPresent(fs, 2, "finalOffset", 0, "");
  }

  lemma ContentPaginationRoundTrip(p: ContentPagination)
    ensures DecodeContentPagination(EncodeContentPagination(p)) == Ok(p)
  {
    Json.ObjectMembersSerialized(ContentFields(p));
    ContentFieldsDecode(p);
  }

  // ---------------------------------------------------------------------
  // Users

  /** ParseUserPaginationToken: `p` is `None` for a nil token. */
  function ParseUserPaginationToken(p: Option<PageToken>): (r: UserCursor)
    ensures p.None? ==> r == UserCursor(0, PageSizeDefault, None)
    ensures r.err.None? ==> r.limit == (if p.Some? && p.value.size > 0 then p.value.size else PageSizeDefault)
    ensures r.err.Some? <==> p.Some? && p.value.token != "" && DecodeUserPagination(p.value.token).Err?
    ensures r.err.Some? ==> r.offset == 0 && r.limit == 0 && r.err == Some(DecodeUserPagination(p.value.token).error)
    ensures p.Some? && p.value.token == "" ==> r.offset == 0
    ensures r.err.None? && p.Some? && p.value.token != "" ==> DecodeUserPagination(p.value.token) == Ok(UserPagination(r.offset))
  {
    if p.None? then UserCursor(0, PageSizeDefault, None)
    else
      var limit := if p.value.size > 0 then p.value.size else PageSizeDefault;
      if p.value.token != "" then
        match DecodeUserPagination(p.value.token)
        case Err(e) => UserCursor(0, 0, Some(e))
        case Ok(parsed) => UserCursor(parsed.offset, limit, None)
      else UserCursor(0, limit, None)
  }

  /** GetUserNextToken: the token of the page after `offset`, or "" at the end. */
  function GetUserNextToken(offset: Int64, limit: Int64, total: Int64): (s: string)
    ensures s == "" <==> Add(offset, limit) >= total
    ensures s != "" ==> DecodeUserPagination(s) == Ok(UserPagination(Add(offset, limit)))
  {
    var nextOffset := Add(offset, limit);
    if nextOffset >= total then ""
    else
      UserPaginationRoundTrip(UserPagination(nextOffset));
      EncodeUserPagination(UserPagination(nextOffset))
  }

  /** The token written for the next page reads back as that page and the same size. */
  lemma UserTokenRoundTrip(offset: Int64, limit: Int64, total: Int64)
    requires limit > 0 && GetUserNextToken(offset, limit, total) != ""
    ensures ParseUserPaginationToken(Some(PageToken(limit, GetUserNextToken(offset, limit, total))))
         == UserCursor(Add(offset, limit), limit, None)
  {
  }

  /** A token that is not JSON yields Go's `(0, 0, err)`. */
  lemma UserTokenMalformed(size: Int64)
    ensures ParseUserPaginationToken(Some(PageToken(size, "not-json"))) == UserCursor(0, 0, Some(Json.InvalidSyntax))
  {
    Json.NoWs("not-json");
    assert "not-json"[..4][2] != "null"[2];
    assert Json.ParseValue("not-json").None?;
  }

  // ---------------------------------------------------------------------
  // Content

  /** ParseContentPaginationToken: `p` is `None` for a nil token. */
  function ParseContentPaginationToken(p: Option<PageToken>): (r: ContentCursor)
    ensures p.None? || p.value.token == "" ==> r == ContentCursor(0, "", 0, None)
    ensures r.err.Some? <==> p.Some? && p.value.token != "" && DecodeContentPagination(p.value.token).Err?
    ensures r.err.Some? ==> r == ContentCursor(0, "", 0, Some(DecodeContentPagination(p.value.token).error))
    ensures r.err.None? && p.Some? && p.value.token != "" ==>
      DecodeContentPagination(p.value.token) == Ok(ContentPagination(r.offset, r.pagingRequestId, r.finalOffset))
  {
    if p.Some? && p.value.token != "" then
      match DecodeContentPagination(p.value.token)
      case Err(e) => ContentCursor(0, "", 0, Some(e))
      case Ok(parsed) => ContentCursor(parsed.offset, parsed.pagingRequestId, parsed.finalOffset, None)
    else ContentCursor(0, "", 0, None)
  }

  /** GetContentNextToken: the stateful token of the next page, or "" past the final offset. */
  function GetContentNextToken(currentOffset: Int64, limit: Int64, finalOffset: Int64, pagingRequestId: string): (s: string)
    ensures s == "" <==> Add(currentOffset, limit) > finalOffset
    ensures s != "" ==>
      DecodeContentPagination(s) == Ok(ContentPagination(Add(currentOffset, limit), pagingRequestId, finalOffset))
  {
    var nextOffset := Add(currentOffset, limit);
    if nextOffset > finalOffset then ""
    else
      var p := ContentPagination(nextOffset, pagingRequestId, finalOffset);
      ContentPaginationRoundTrip(p);
      EncodeContentPagination(p)
  }

  /** The next content token carries the paging request id and the final offset unchanged. */
  lemma ContentTokenRoundTrip(currentOffset: Int64, limit: Int64, finalOffset: Int64, pagingRequestId: string, size: Int64)
    requires GetContentNextToken(currentOffset, limit, finalOffset, pagingRequestId) != ""
    ensures ParseContentPaginationToken(Some(PageToken(size, GetContentNextToken(currentOffset, limit, finalOffset, pagingRequestId))))
         == ContentCursor(Add(currentOffset, limit), pagingRequestId, finalOffset, None)
  {
  }

  /**
    Past the top of int64 the next offset wraps negative, so a page near
    MaxInt64 still writes a token, whatever the (non-negative) final offset.
   */
  lemma ContentTokenPastTopWraps(currentOffset: Int64, limit: Int64, finalOffset: Int64, pagingRequestId: string, size: Int64)
    requires limit > 0 && currentOffset > MaxInt64 - limit && finalOffset >= 0
    ensures Add(currentOffset, limit) == currentOffset + limit - 0x1_0000_0000_0000_0000 < 0
    ensures GetContentNextToken(currentOffset, limit, finalOffset, pagingRequestId) != ""
    ensures ParseContentPaginationToken(Some(PageToken(size, GetContentNextToken(currentOffset, limit, finalOffset, pagingRequestId))))
         == ContentCursor(currentOffset + limit - 0x1_0000_0000_0000_0000, pagingRequestId, finalOffset, None)
  {
    ContentTokenRoundTrip(currentOffset, limit, finalOffset, pagingRequestId, size);
  }

  /** A token that is not JSON yields Go's `(0, "", 0, err)`. */
  lemma ContentTokenMalformed(size: Int64)
    ensures ParseContentPaginationToken(Some(PageToken(size, "not-json"))) == ContentCursor(0, "", 0, Some(Json.InvalidSyntax))
  {
    Json.NoWs("not-json");
    assert "not-json"[..4][2] != "null"[2];
    assert Json.ParseValue("not-json").None?;
  }

  /**
    The offsets of the content pages fetched from `offset` on: each page is
    followed by the next one while that one starts no later than the final
    offset.
   */
  function ContentPages(offset: Int64, limit: Int64, finalOffset: Int64): (pages: seq<Int64>)
    requires limit > 0 && offset <= finalOffset <= MaxInt64 - limit
    ensures |pages| >= 1 && pages[0] == offset
    ensures forall i :: 0 <= i < |pages| ==> offset <= pages[i] <= finalOffset
    decreases finalOffset - offset + limit
  {
    if offset + limit > finalOffset then [offset]
    else [offset] + ContentPages(offset + limit, limit, finalOffset)
  }

  /** Consecutive pages are one `limit` apart, and only the last is followed by nothing. */
  lemma {:induction false} ContentPagesStep(offset: Int64, limit: Int64, finalOffset: Int64)
    requires limit > 0 && offset <= finalOffset <= MaxInt64 - limit
    ensures var pages := ContentPages(offset, limit, finalOffset);
      && |pages| > 0 && pages[0] == offset
      && (forall i :: 0 <= i < |pages| - 1 ==> pages[i] + limit <= finalOffset && pages[i + 1] == pages[i] + limit)
      && finalOffset < pages[|pages| - 1] + limit
      && pages[|pages| - 1] <= finalOffset
    decreases finalOffset - offset + limit
  {
    var pages := ContentPages(offset, limit, finalOffset);
    if offset + limit <= finalOffset {
      var rest := ContentPages(offset + limit, limit, finalOffset);
      assert pages == [offset] + rest;
      ContentPagesStep(offset + limit, limit, finalOffset);
      forall i | 0 <= i < |pages| - 1
        ensures pages[i] + limit <= finalOffset && pages[i + 1] == pages[i] + limit
      {
        if i > 0 {
          assert pages[i] == rest[i - 1] && pages[i + 1] == rest[i];
        }
      }
    }
  }

  /** The token written after a page that is followed by another reads back as that next page. */
  lemma NextPageToken(offset: Int64, next: Int64, limit: Int64, finalOffset: Int64, id: string)
    requires limit > 0 && offset + limit <= finalOffset && next == offset + limit
    ensures ParseContentPaginationToken(Some(PageToken(limit, GetContentNextToken(offset, limit, finalOffset, id))))
         == ContentCursor(next, id, finalOffset, None)
  {
    ContentTokenRoundTrip(offset, limit, finalOffset, id, limit);
  }

  lemma NoTokenPastFinal(offset: Int64, limit: Int64, finalOffset: Int64, id: string)
    requires finalOffset < offset + limit <= MaxInt64
    ensures GetContentNextToken(offset, limit, finalOffset, id) == ""
  {
  }

  /**
    The sweep is the one the tokens drive: after every page but the last, the
    next token reads back as the next page under the same paging request id
    and final offset, and after the last page no token is written.
   */
  lemma ContentPagesFollowTokens(offset: Int64, limit: Int64, finalOffset: Int64, id: string)
    requires limit > 0 && offset <= finalOffset <= MaxInt64 - limit
    ensures var pages := ContentPages(offset, limit, finalOffset);
      forall i :: 0 <= i < |pages| - 1 ==>
        ParseContentPaginationToken(Some(PageToken(limit, GetContentNextToken(pages[i], limit, finalOffset, id))))
        == ContentCursor(pages[i + 1], id, finalOffset, None)
  {
    var pages := ContentPages(offset, limit, finalOffset);
    ContentPagesStep(offset, limit, finalOffset);
    forall i | 0 <= i < |pages| - 1
      ensures ParseContentPaginationToken(Some(PageToken(limit, GetContentNextToken(pages[i], limit, finalOffset, id))))
           == ContentCursor(pages[i + 1], id, finalOffset, None)
    {
      NextPageToken(pages[i], pages[i + 1], limit, finalOffset, id);
    }
  }

  /** After the last page of the sweep no token is written. */
  lemma ContentPagesEnd(offset: Int64, limit: Int64, finalOffset: Int64, id: string)
    requires limit > 0 && offset <= finalOffset <= MaxInt64 - limit
    ensures var pages := ContentPages(offset, limit, finalOffset);
      GetContentNextToken(pages[|pages| - 1], limit, finalOffset, id) == ""
  {
    var pages := ContentPages(offset, limit, finalOffset);
    ContentPagesStep(offset, limit, finalOffset);
    NoTokenPastFinal(pages[|pages| - 1], limit, finalOffset, id);
  }

  lemma StepMultiple(offset: int, limit: int, i: int)
    ensures (offset + limit) + (i - 1) * limit == offset + i * limit
  {
  }

  /**
    Starting at an offset no later than the final offset, the sweep visits
    consecutive pages of `limit`, the last starting at or before the final
    offset and within one page of it.
   */
  lemma {:induction false} ContentPagesCover(offset: Int64, limit: Int64, finalOffset: Int64)
    requires limit > 0 && offset <= finalOffset <= MaxInt64 - limit
    ensures var pages := ContentPages(offset, limit, finalOffset);
      && |pages| > 0
      && (forall i :: 0 <= i < |pages| ==> pages[i] == offset + i * limit)
      && finalOffset - limit < pages[|pages| - 1] <= finalOffset
    decreases finalOffset - offset + limit
  {
    var pages := ContentPages(offset, limit, finalOffset);
    if offset + limit <= finalOffset {
      var rest := ContentPages(offset + limit, limit, finalOffset);
      assert pages == [offset] + rest;
      ContentPagesCover(offset + limit, limit, finalOffset);
      forall i | 0 <= i < |pages|
        ensures pages[i] == offset + i * limit
      {
        if i > 0 {
          assert pages[i] == rest[i - 1];
          StepMultiple(offset, limit, i);
        }
      }
    }
  }

  /** A final offset on a page boundary is itself fetched, as the last page. */
  lemma {:induction false} ContentPagesReachFinal(offset: Int64, limit: Int64, k: nat, finalOffset: Int64)
    requires limit > 0 && offset <= finalOffset <= MaxInt64 - limit
    requires finalOffset == offset + k * limit
    ensures var pages := ContentPages(offset, limit, finalOffset);
      |pages| == k + 1 && pages[k] == finalOffset
    decreases k
  {
    if k > 0 {
      StepMultiple(offset, limit, k);
      ContentPagesReachFinal(offset + limit, limit, k - 1, finalOffset);
    }
  }
}
