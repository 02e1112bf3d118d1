/**
  The user listing: what a user is shown as, its status, and the plain
  decimal page tokens the listing actually uses.
 */
module Users {
  import opened Wrappers
  import opened GoInt
  import Decimal
  import Pagination

  const UserFullNameDefault: string := "<no name>"

  /** The fields of a Percipio user the connector reads. */
  datatype User = User(id: string, email: string, firstName: string, lastName: string, isActive: bool)

  /** strings.Join. */
  function Join(parts: seq<string>, sep: string): (s: string)
    ensures parts == [] ==> s == ""
    ensures |parts| >= 1 ==> |s| >= |parts[0]| && s[..|parts[0]|] == parts[0]
    ensures |parts| >= 2 ==> |s| >= |parts[0]| + |sep| && s[|parts[0]|..|parts[0]| + |sep|] == sep
  {
    if parts == [] then ""
    else if |parts| == 1 then parts[0]
    else parts[0] + sep + Join(parts[1..], sep)
  }

  /** getDisplayName: the non-empty names joined by a space, else the email, else the id, else a placeholder. */
  function GetDisplayName(user: User): (name: string)
    ensures name != ""
    ensures user.firstName != "" && user.lastName != "" ==> name == user.firstName + " " + user.lastName
    ensures user.firstName != "" && user.lastName == "" ==> name == user.firstName
    ensures user.firstName == "" && user.lastName != "" ==> name == user.lastName
    ensures user.firstName == "" && user.lastName == "" ==>
              name == (if user.email != "" then user.email else if user.id != "" then user.id else UserFullNameDefault)
  {
    var parts := (if user.firstName != "" then [user.firstName] else [])
               + (if user.lastName != "" then [user.lastName] else []);
    if |parts| > 0 then
      assert |parts| == 2 ==> Join(parts[1..], " ") == parts[1];
      Join(parts, " ")
    else if user.email != "" then user.email
    else if user.id != "" then user.id
    else UserFullNameDefault
  }

  datatype UserStatus = Enabled | Disabled

  /** The status a user resource carries. */
  function UserStatusOf(user: User): (s: UserStatus)
    ensures s == Enabled <==> user.isActive
    ensures s == Disabled <==> !user.isActive
  {
    if user.isActive then Enabled else Disabled
  }

  // ---------------------------------------------------------------------
  // Decimal page tokens

  /** parsePaginationToken's `(offset, limit, err)`. */
  datatype Cursor = Cursor(offset: Int64, limit: Int64, err: Option<Decimal.NumError>)

  /** parsePaginationToken: `p` is `None` for a nil token; a non-empty token is a decimal offset. */
  function ParsePaginationToken(p: Option<Pagination.PageToken>): (r: Cursor)
    ensures p.None? ==> r == Cursor(0, Pagination.PageSizeDefault, None)
    ensures r.err.None? ==> r.limit == (if p.Some? && p.value.size > 0 then p.value.size else Pagination.PageSizeDefault)
    ensures r.err.Some? <==> p.Some? && p.value.token != "" && Decimal.Atoi(p.value.token).Err?
    ensures r.err.Some? ==> r == Cursor(0, 0, Some(Decimal.Atoi(p.value.token).error))
    ensures p.Some? && p.value.token == "" ==> r.offset == 0
    ensures r.err.None? && p.Some? && p.value.token != "" ==> Decimal.Atoi(p.value.token) == Ok(r.offset)
  {
    if p.None? then Cursor(0, Pagination.PageSizeDefault, None)
    else
      var limit := if p.value.size > 0 then p.value.size else Pagination.PageSizeDefault;
      if p.value.token != "" then
        match Decimal.Atoi(p.value.token)
        case Err(e) => Cursor(0, 0, Some(e))
        case Ok(parsedOffset) => Cursor(parsedOffset, limit, None)
      else Cursor(0, limit, None)
  }

  /** getNextToken: the decimal offset of the next page, or "" once it reaches the total. */
  function GetNextToken(offset: Int64, limit: Int64, total: Int64): (s: string)
    ensures s == "" <==> Add(offset, limit) >= total
    ensures s != "" ==> Decimal.Atoi(s) == Ok(Add(offset, limit))
  {
    var nextOffset := Add(offset, limit);
    if nextOffset >= total then ""
    else
      Decimal.AtoiItoa(nextOffset);
      Decimal.Itoa(nextOffset)
  }

  /** The token for the next page reads back as that page, with the same size. */
  lemma NextTokenRoundTrip(offset: Int64, limit: Int64, total: Int64)
    requires limit > 0 && GetNextToken(offset, limit, total) != ""
    ensures ParsePaginationToken(Some(Pagination.PageToken(limit, GetNextToken(offset, limit, total))))
         == Cursor(Add(offset, limit), limit, None)
  {
  }

  /**
    Past the top of int64 the next offset wraps negative, so a page near
    MaxInt64 still writes a token, and it reads back as a negative offset.
   */
  lemma TokenPastTopWraps(offset: Int64, limit: Int64, total: Int64)
    requires limit > 0 && offset > MaxInt64 - limit && total >= 0
    ensures Add(offset, limit) == offset + limit - 0x1_0000_0000_0000_0000 < 0
    ensures GetNextToken(offset, limit, total) != ""
    ensures ParsePaginationToken(Some(Pagination.PageToken(limit, GetNextToken(offset, limit, total))))
         == Cursor(offset + limit - 0x1_0000_0000_0000_0000, limit, None)
  {
    NextTokenRoundTrip(offset, limit, total);
  }

  /** A token that is not a number yields Go's `(0, 0, err)`. */
  lemma TokenNotANumber(size: Int64)
    ensures ParsePaginationToken(Some(Pagination.PageToken(size, "x"))) == Cursor(0, 0, Some(Decimal.SyntaxError))
  {
    assert !Decimal.IsDigit("x"[0]);
  }

  // ---------------------------------------------------------------------
  // A whole listing

  /**
    The offsets of the pages the listing fetches from `offset` on: the next
    page is fetched while it starts before the total.
   */
  function UserPages(offset: Int64, limit: Int64, total: Int64): (pages: seq<Int64>)
    requires limit > 0 && total <= MaxInt64 - limit
    ensures |pages| >= 1 && pages[0] == offset
    ensures forall i :: 1 <= i < |pages| ==> offset < pages[i] < total
    decreases total - offset
  {
    if offset + limit >= total then [offset]
    else [offset] + UserPages(offset + limit, limit, total)
  }

  /** Page i of the listing starts at offset + i*limit. */
  lemma {:induction false} UserPagesAt(offset: Int64, limit: Int64, total: Int64)
    requires limit > 0 && total <= MaxInt64 - limit && 0 <= offset <= MaxInt64 - limit
    ensures forall i: int :: 0 <= i < |UserPages(offset, limit, total)| ==>
              UserPages(offset, limit, total)[i] == offset + i * limit
    decreases total - offset
  {
    var pages := UserPages(offset, limit, total);
    if offset + limit < total {
      var rest := UserPages(offset + limit, limit, total);
      UserPagesAt(offset + limit, limit, total);
      assert pages == [offset] + rest;
      forall i: int | 1 <= i < |pages|
        ensures pages[i] == offset + i * limit
      {
        assert pages[i] == rest[i - 1];
        assert (offset + limit) + (i - 1) * limit == offset + i * limit;
      }
    }
  }

  /** Every page of the listing but the last writes a token that reads back as the next page. */
  lemma {:induction false} UserPagesChain(offset: Int64, limit: Int64, total: Int64)
    requires limit > 0 && total <= MaxInt64 - limit && 0 <= offset <= MaxInt64 - limit
    ensures forall i: int :: 0 <= i < |UserPages(offset, limit, total)| - 1 ==>
              ParsePaginationToken(Some(Pagination.PageToken(limit, GetNextToken(UserPages(offset, limit, total)[i], limit, total))))
              == Cursor(UserPages(offset, limit, total)[i + 1], limit, None)
    decreases total - offset
  {
    var pages := UserPages(offset, limit, total);
    if offset + limit < total {
      var rest := UserPages(offset + limit, limit, total);
      UserPagesChain(offset + limit, limit, total);
      assert pages == [offset] + rest;
      forall i: int | 0 <= i < |pages| - 1
        ensures ParsePaginationToken(Some(Pagination.PageToken(limit, GetNextToken(pages[i], limit, total))))
                == Cursor(pages[i + 1], limit, None)
      {
        if i == 0 {
          NextTokenRoundTrip(offset, limit, total);
        } else {
          assert pages[i] == rest[i - 1] && pages[i + 1] == rest[i];
        }
      }
    }
  }

  /** The last page of the listing reaches the total, so it writes "". */
  lemma {:induction false} UserPagesLast(offset: Int64, limit: Int64, total: Int64)
    requires limit > 0 && total <= MaxInt64 - limit && 0 <= offset <= MaxInt64 - limit
    ensures GetNextToken(UserPages(offset, limit, total)[|UserPages(offset, limit, total)| - 1], limit, total) == ""
    decreases total - offset
  {
    var pages := UserPages(offset, limit, total);
    if offset + limit < total {
      var rest := UserPages(offset + limit, limit, total);
      UserPagesLast(offset + limit, limit, total);
      assert pages == [offset] + rest;
      assert pages[|pages| - 1] == rest[|rest| - 1];
    }
  }

  /**
    Page i starts at offset + i*limit; every page but the last is followed by
    a token that reads back as the next page, and after the last the
    listing ends with "" because that page reaches the total.
   */
  lemma UserPagesFollowTokens(offset: Int64, limit: Int64, total: Int64)
    requires limit > 0 && total <= MaxInt64 - limit && 0 <= offset <= MaxInt64 - limit
    ensures var pages := UserPages(offset, limit, total);
            && (forall i: int :: 0 <= i < |pages| ==> pages[i] == offset + i * limit)
            && (forall i: int :: 0 <= i < |pages| - 1 ==>
                  ParsePaginationToken(Some(Pagination.PageToken(limit, GetNextToken(pages[i], limit, total))))
                  == Cursor(pages[i + 1], limit, None))
            && GetNextToken(pages[|pages| - 1], limit, total) == ""
  {
    UserPagesAt(offset, limit, total);
    UserPagesChain(offset, limit, total);
    UserPagesLast(offset, limit, total);
  }

  /** With a total past the first offset, the listing visits k pages where the k-th page is the one that reaches the total. */
  lemma {:induction false} UserPagesCount(offset: Int64, limit: Int64, total: Int64, k: nat)
    requires limit > 0 && total <= MaxInt64 - limit && offset >= 0 && k >= 1
    requires offset + (k - 1) * limit < total <= offset + k * limit
    ensures |UserPages(offset, limit, total)| == k
    decreases k
  {
    if k > 1 {
      assert offset + limit < total by {
        assert offset + limit <= offset + (k - 1) * limit;
      }
      assert (offset + limit) + (k - 1 - 1) * limit == offset + (k - 1) * limit;
      assert (offset + limit) + (k - 1) * limit == offset + k * limit;
      UserPagesCount(offset + limit, limit, total, k - 1);
    }
  }
}
