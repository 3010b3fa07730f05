/** repositories/user_management/token_repository.go as an in-memory table: the tokens table is a
    sequence of rows that `Create`, `Delete` and `DeleteExpired` change and the finders read. */
module TokenRepository {
  import opened Common
  import opened Models

  /** The WHERE conditions the repository uses. */
  datatype Criterion =
    | IdIs(id: Uuid)                 // "id = ?"
    | TokenIs(value: string)         // "token = ?"
    | UserIs(userId: Uuid)           // "user_id = ?"
    | ExpiresBefore(now: Instant)    // "expires_at < ?"

  predicate Matches(c: Criterion, t: Token)
  {
    match c
    case IdIs(id) => t.id == id
    case TokenIs(v) => t.token == v
    case UserIs(u) => t.userId == u
    case ExpiresBefore(now) => t.expiresAt < now
  }

  /** The rows, in table order, for which `c` evaluates to `holds`: a SELECT when `holds` is true, what a
      DELETE leaves behind when it is false. */
  function Where(rows: seq<Token>, c: Criterion, holds: bool): (r: seq<Token>)
    ensures |r| <= |rows|
  {
    if rows == [] then []
    else (if Matches(c, rows[0]) == holds then [rows[0]] else []) + Where(rows[1..], c, holds)
  }

  /** Some row clashes with `t` on the primary key or on the unique token index. */
  predicate Clashes(rows: seq<Token>, t: Token)
  {
    exists i :: 0 <= i < |rows| && (rows[i].id == t.id || rows[i].token == t.token)
  }

  class TokenStore {
    /** The visible rows of the tokens table; soft-deleted rows are gone from it. */
    var rows: seq<Token>

    ghost predicate Valid()
      reads this
    {
      UniqueTokens(rows)
    }

    constructor ()
      ensures rows == [] && Valid()
    {
      rows := [];
    }

    /** `Create(token)`: BeforeCreate gives the row a fresh id, then the insert either succeeds, violates
        a unique index, or fails in the database (`healthy` false). */
    method Create(t: Token, freshId: Uuid, healthy: bool) returns (r: Result<Token>)
      requires Valid()
      modifies this
      ensures Valid()
      ensures var n := BeforeCreateToken(t, freshId);
        if !healthy then r == Err(StoreFailure) && rows == old(rows)
        else if Clashes(old(rows), n) then r == Err(DuplicateKey) && rows == old(rows)
        else r == Ok(n) && rows == old(rows) + [n]
    {
      var n := BeforeCreateToken(t, freshId);
      if !healthy {
        return Err(StoreFailure);
      }
      if Clashes(rows, n) {
        return Err(DuplicateKey);
      }
      AppendUnique(rows, n);
      rows := rows + [n];
      r := Ok(n);
    }

    /** `FindByToken(value)`: the row holding that token value, or gorm's record-not-found. */
    function FindByToken(value: string): (r: Result<Token>)
      reads this
      ensures r.Ok? ==> r.value in rows && r.value.token == value
      ensures r.Err? ==> r.error == RecordNotFound && forall t :: t in rows ==> t.token != value
    {
      var found := Where(rows, TokenIs(value), true);
      WhereMembers(rows, TokenIs(value), true);
      if found == [] then
        Err(RecordNotFound)
      else
        assert found[0] in found;
        Ok(found[0])
    }

    /** `FindByUserID(userID)`: every row of that user; none gives an empty result, not an error. */
    function FindByUserID(userId: Uuid): (r: seq<Token>)
      reads this
      ensures forall t :: t in r <==> t in rows && t.userId == userId
    {
      WhereMembers(rows, UserIs(userId), true);
      Where(rows, UserIs(userId), true)
    }

    /** `Delete(id)`: removes the row with that id, if any; deleting a missing id is not an error. */
    method Delete(id: Uuid, healthy: bool) returns (err: Option<Error>)
      requires Valid()
      modifies this
      ensures Valid()
      ensures healthy ==> err == None && rows == Where(old(rows), IdIs(id), false)
      ensures !healthy ==> err == Some(StoreFailure) && rows == old(rows)
      ensures forall t :: t in rows <==> t in old(rows) && (healthy ==> t.id != id)
    {
      if !healthy {
        return Some(StoreFailure);
      }
      WhereMembers(rows, IdIs(id), false);
      WhereUnique(rows, IdIs(id), false);
      rows := Where(rows, IdIs(id), false);
      err := None;
    }

    /** `DeleteExpired()` at instant `now`: removes exactly the rows whose expiry is before `now`. */
    method DeleteExpired(now: Instant, healthy: bool) returns (err: Option<Error>)
      requires Valid()
      modifies this
      ensures Valid()
      ensures healthy ==> err == None && rows == Where(old(rows), ExpiresBefore(now), false)
      ensures !healthy ==> err == Some(StoreFailure) && rows == old(rows)
      ensures forall t :: t in rows <==> t in old(rows) && (healthy ==> t.expiresAt >= now)
    {
      if !healthy {
        return Some(StoreFailure);
      }
      WhereMembers(rows, ExpiresBefore(now), false);
      WhereUnique(rows, ExpiresBefore(now), false);
      rows := Where(rows, ExpiresBefore(now), false);
      err := None;
    }
  }

  // ---------------------------------------------------------------------------------------------
  // Lemmas

  /** A row is selected exactly when it is in the table and the condition has the asked-for truth. */
  lemma {:induction false} WhereMembers(rows: seq<Token>, c: Criterion, holds: bool)
    ensures forall t :: t in Where(rows, c, holds) <==> t in rows && Matches(c, t) == holds
  {
    if rows != [] {
      WhereMembers(rows[1..], c, holds);
      assert rows == [rows[0]] + rows[1..];
    }
  }

  /** Selecting keeps the table's uniqueness: a filtered table is still a valid table. */
  lemma {:induction false} WhereUnique(rows: seq<Token>, c: Criterion, holds: bool)
    requires UniqueTokens(rows)
    ensures UniqueTokens(Where(rows, c, holds))
  {
    if rows != [] {
      var tail := Where(rows[1..], c, holds);
      TailUnique(rows);
      WhereUnique(rows[1..], c, holds);
      if Matches(c, rows[0]) == holds {
        WhereMembers(rows[1..], c, holds);
        forall t | t in tail ensures t.id != rows[0].id && t.token != rows[0].token {
          var k :| 0 <= k < |rows[1..]| && rows[1..][k] == t;
          assert rows[k + 1] == t;
        }
        ConsUnique(rows[0], tail);
        assert Where(rows, c, holds) == [rows[0]] + tail;
      } else {
        assert Where(rows, c, holds) == tail;
      }
    }
  }

  lemma TailUnique(rows: seq<Token>)
    requires UniqueTokens(rows) && rows != []
    ensures UniqueTokens(rows[1..])
  {
    forall i, j | 0 <= i < j < |rows[1..]| ensures rows[1..][i].id != rows[1..][j].id && rows[1..][i].token != rows[1..][j].token {
      assert rows[1..][i] == rows[i + 1] && rows[1..][j] == rows[j + 1];
    }
  }

  /** A row that differs from every row of a valid table in id and token can head it. */
  lemma ConsUnique(t: Token, tail: seq<Token>)
    requires UniqueTokens(tail)
    requires forall u :: u in tail ==> u.id != t.id && u.token != t.token
    ensures UniqueTokens([t] + tail)
  {
    var all := [t] + tail;
    forall i, j | 0 <= i < j < |all| ensures all[i].id != all[j].id && all[i].token != all[j].token {
      assert all[j] == tail[j - 1];
      if i > 0 {
        assert all[i] == tail[i - 1];
      } else {
        assert tail[j - 1] in tail;
      }
    }
  }

  /** No row with the asked-for truth, nothing selected. */
  lemma {:induction false} WhereNone(rows: seq<Token>, c: Criterion, holds: bool)
    requires forall t :: t in rows ==> Matches(c, t) != holds
    ensures Where(rows, c, holds) == []
  {
    if rows != [] {
      assert rows[0] in rows;
      assert forall t :: t in rows[1..] ==> t in rows;
      WhereNone(rows[1..], c, holds);
    }
  }

  /** Appending a row that clashes with none keeps the table valid. */
  lemma AppendUnique(rows: seq<Token>, n: Token)
    requires UniqueTokens(rows) && !Clashes(rows, n)
    ensures UniqueTokens(rows + [n])
  {
  }

  /** In a valid table two different rows differ in id and in token value. */
  lemma Distinct(rows: seq<Token>, x: Token, t: Token)
    requires UniqueTokens(rows) && x in rows && t in rows && x != t
    ensures x.id != t.id && x.token != t.token
  {
    var i :| 0 <= i < |rows| && rows[i] == x;
    var j :| 0 <= j < |rows| && rows[j] == t;
    assert i < j || j < i;
  }

  /** In a valid table a token value names one row, so the finder returns that row. */
  lemma FindUnique(rows: seq<Token>, t: Token)
    requires UniqueTokens(rows) && t in rows
    ensures Where(rows, TokenIs(t.token), true) == [t]
  {
    UniqueWhereToken(rows, t);
  }

  lemma {:induction false} UniqueWhereToken(rows: seq<Token>, t: Token)
    requires UniqueTokens(rows) && t in rows
    ensures Where(rows, TokenIs(t.token), true) == [t]
  {
    assert rows == [rows[0]] + rows[1..];
    if rows[0] == t {
      forall u | u in rows[1..] ensures u.token != t.token {
        var k :| 0 <= k < |rows[1..]| && rows[1..][k] == u;
        assert rows[k + 1] == u;
      }
      WhereNone(rows[1..], TokenIs(t.token), true);
    } else {
      var k :| 0 <= k < |rows| && rows[k] == t;
      assert k != 0;
      assert rows[0].token != t.token;
      assert UniqueTokens(rows[1..]) by {
        forall i, j | 0 <= i < j < |rows[1..]|
          ensures rows[1..][i].id != rows[1..][j].id && rows[1..][i].token != rows[1..][j].token
        {
          assert rows[1..][i] == rows[i + 1] && rows[1..][j] == rows[j + 1];
        }
      }
      assert rows[1..][k - 1] == t;
      UniqueWhereToken(rows[1..], t);
    }
  }
}
