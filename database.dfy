/**
 * The SQLite store of src/database.py: the `users`, `expenses` and `gemini_cache` tables
 * held as in-memory state, and each `DatabaseManager` method as one atomic step on it.
 */
module Database {
  import opened Wrappers
  import opened Calendar
  import Collation

  /**
   * `hashlib.sha256(value.encode()).hexdigest()`. A digest is modelled as a tag holding the
   * hashed text, so that distinct texts always have distinct digests (no collisions).
   */
  datatype Digest = Sha256(text: string)

  function HashValue(value: string): (h: Digest)
    ensures forall other :: Sha256(other) == h ==> other == value
  {
    Sha256(value)
  }

  /** A row of `users`; its `created_at` timestamp is not modelled. */
  datatype UserRow = UserRow(id: int, username: string, passwordHash: Digest)

  /** A row of `expenses`; its `created_at` timestamp is not modelled. */
  datatype ExpenseRow = ExpenseRow(
    id: int, userId: int, category: string, title: string, amount: real, date: Date, notes: string)

  /** The dictionary handed to `save_expense`; the `notes` key may be absent. */
  datatype ExpenseData = ExpenseData(
    userId: int, category: string, title: string, amount: real, date: Date, notes: Option<string>)

  /** The upper end of an amount range; main.py passes `float('inf')`. */
  datatype Ceiling = AtMost(bound: real) | Unbounded

  /** The `(low, high)` tuple of `amount BETWEEN ? AND ?`. */
  datatype AmountRange = AmountRange(low: real, high: Ceiling)

  predicate InAmountRange(a: real, r: AmountRange) {
    r.low <= a && (r.high.AtMost? ==> a <= r.high.bound)
  }

  /** One `AND` term of the WHERE clause that `get_filtered_expenses` assembles. */
  datatype Condition =
    | OwnedBy(userId: int)
    | DateBetween(start: Date, end: Date)
    | CategoryIn(categories: seq<string>)
    | AmountBetween(range: AmountRange)

  predicate Holds(c: Condition, row: ExpenseRow) {
    match c
    case OwnedBy(u) => row.userId == u
    case DateBetween(s, e) => LessEq(s, row.date) && LessEq(row.date, e)
    case CategoryIn(cs) => row.category in cs
    case AmountBetween(r) => InAmountRange(row.amount, r)
  }

  predicate HoldsAll(query: seq<Condition>, row: ExpenseRow) {
    forall i :: 0 <= i < |query| ==> Holds(query[i], row)
  }

  lemma HoldsAllAppend(query: seq<Condition>, c: Condition, row: ExpenseRow)
    ensures HoldsAll(query + [c], row) <==> HoldsAll(query, row) && Holds(c, row)
  {
    if HoldsAll(query, row) && Holds(c, row) {
      forall i | 0 <= i < |query| + 1 ensures Holds((query + [c])[i], row) {
        if i < |query| {
          assert (query + [c])[i] == query[i];
        }
      }
    }
    if HoldsAll(query + [c], row) {
      assert Holds((query + [c])[|query|], row);
      forall i | 0 <= i < |query| ensures Holds(query[i], row) {
        assert (query + [c])[i] == query[i];
      }
    }
  }

  /** The rows of a table that satisfy every term of a WHERE clause, in table order. */
  function Select(rows: seq<ExpenseRow>, query: seq<Condition>): (r: seq<ExpenseRow>)
    ensures forall x :: multiset(r)[x] == if HoldsAll(query, x) then multiset(rows)[x] else 0
  {
    if rows == [] then []
    else
      assert rows == [rows[0]] + rows[1..];
      (if HoldsAll(query, rows[0]) then [rows[0]] else []) + Select(rows[1..], query)
  }

  /** What `ORDER BY date DESC` promises: dates never increase; ties come in any order. */
  ghost predicate DateDescending(rows: seq<ExpenseRow>) {
    forall i, j :: 0 <= i < j < |rows| ==> LessEq(rows[j].date, rows[i].date)
  }

  lemma TailDescending(rows: seq<ExpenseRow>)
    requires DateDescending(rows) && rows != []
    ensures DateDescending(rows[1..])
  {
    var tail := rows[1..];
    forall i, j | 0 <= i < j < |tail| ensures LessEq(tail[j].date, tail[i].date) {
      assert tail[i] == rows[i + 1] && tail[j] == rows[j + 1];
    }
  }

  /** A row dated no earlier than every row of a descending list can go in front of it. */
  lemma ConsDescending(h: ExpenseRow, rest: seq<ExpenseRow>)
    requires DateDescending(rest)
    requires forall y :: y in rest ==> LessEq(y.date, h.date)
    ensures DateDescending([h] + rest)
  {
    var r := [h] + rest;
    forall i, j | 0 <= i < j < |r| ensures LessEq(r[j].date, r[i].date) {
      assert r[j] == rest[j - 1];
      if i > 0 {
        assert r[i] == rest[i - 1];
      }
    }
  }

  /** Every row of a descending list is dated no later than its first row. */
  lemma HeadIsLatest(rows: seq<ExpenseRow>, y: ExpenseRow)
    requires DateDescending(rows) && y in rows
    ensures LessEq(y.date, rows[0].date)
  {
    var k :| 0 <= k < |rows| && rows[k] == y;
    if k > 0 {
      assert LessEq(rows[k].date, rows[0].date);
    }
  }

  function InsertByDate(x: ExpenseRow, rows: seq<ExpenseRow>): (r: seq<ExpenseRow>)
    requires DateDescending(rows)
    ensures DateDescending(r)
    ensures multiset(r) == multiset(rows) + multiset{x}
  {
    if rows == [] || LessEq(rows[0].date, x.date) then
      forall y | y in rows ensures LessEq(y.date, x.date) {
        HeadIsLatest(rows, y);
        LessEqTransitive(y.date, rows[0].date, x.date);
      }
      ConsDescending(x, rows);
      [x] + rows
    else
      TailDescending(rows);
      var rest := InsertByDate(x, rows[1..]);
      assert rows == [rows[0]] + rows[1..];
      forall y | y in rest ensures LessEq(y.date, rows[0].date) {
        assert y in multiset(rest);
        if y != x {
          assert y in rows;
          HeadIsLatest(rows, y);
        }
      }
      ConsDescending(rows[0], rest);
      [rows[0]] + rest
  }

  /** The sorting step of `ORDER BY date DESC`. */
  function SortByDateDesc(rows: seq<ExpenseRow>): (r: seq<ExpenseRow>)
    ensures DateDescending(r)
    ensures multiset(r) == multiset(rows)
  {
    if rows == [] then []
    else
      assert rows == [rows[0]] + rows[1..];
      InsertByDate(rows[0], SortByDateDesc(rows[1..]))
  }

  /** The rows `get_filtered_expenses` is asked for, stated directly from its arguments. */
  predicate Wanted(
    x: ExpenseRow, userId: int, start: Date, end: Date, categories: seq<string>,
    amountRange: Option<AmountRange>)
  {
    && x.userId == userId
    && LessEq(start, x.date) && LessEq(x.date, end)
    && (|categories| > 0 ==> x.category in categories)
    && (amountRange.Some? ==> InAmountRange(x.amount, amountRange.value))
  }

  /** The rows `DELETE FROM expenses WHERE id = ? AND user_id = ?` matches. */
  predicate Matches(row: ExpenseRow, expenseId: int, userId: int) {
    row.id == expenseId && row.userId == userId
  }

  /** The rows that DELETE leaves, in their order. */
  function Without(rows: seq<ExpenseRow>, expenseId: int, userId: int): (r: seq<ExpenseRow>)
    ensures forall x :: x in r <==> x in rows && !Matches(x, expenseId, userId)
    ensures |r| <= |rows|
  {
    if rows == [] then []
    else
      assert rows == [rows[0]] + rows[1..];
      (if Matches(rows[0], expenseId, userId) then [] else [rows[0]]) + Without(rows[1..], expenseId, userId)
  }

  /** Row ids rise in table order, as AUTOINCREMENT issues them; so they are unique. */
  ghost predicate IdsIncreasing(rows: seq<ExpenseRow>) {
    forall i, j :: 0 <= i < j < |rows| ==> rows[i].id < rows[j].id
  }

  /** Every row id was issued: it lies in 1..`last`, the AUTOINCREMENT high-water mark. */
  ghost predicate IdsIssued(rows: seq<ExpenseRow>, last: int) {
    forall x :: x in rows ==> 1 <= x.id <= last
  }

  lemma TailIncreasing(rows: seq<ExpenseRow>)
    requires IdsIncreasing(rows) && rows != []
    ensures IdsIncreasing(rows[1..])
  {
    var tail := rows[1..];
    forall i, j | 0 <= i < j < |tail| ensures tail[i].id < tail[j].id {
      assert tail[i] == rows[i + 1] && tail[j] == rows[j + 1];
    }
  }

  /** A DELETE that matches nothing leaves the table exactly as it was. */
  lemma {:induction false} WithoutNoMatch(rows: seq<ExpenseRow>, expenseId: int, userId: int)
    requires forall k :: 0 <= k < |rows| ==> !Matches(rows[k], expenseId, userId)
    ensures Without(rows, expenseId, userId) == rows
  {
    if rows != [] {
      WithoutNoMatch(rows[1..], expenseId, userId);
      assert rows == [rows[0]] + rows[1..];
    }
  }

  /** With unique ids, a DELETE that matches row `k` removes that row only, keeping the order of the rest. */
  lemma {:induction false} WithoutOne(rows: seq<ExpenseRow>, k: int, expenseId: int, userId: int)
    requires IdsIncreasing(rows)
    requires 0 <= k < |rows| && Matches(rows[k], expenseId, userId)
    ensures Without(rows, expenseId, userId) == rows[..k] + rows[k + 1..]
  {
    assert rows == [rows[0]] + rows[1..];
    TailIncreasing(rows);
    if k == 0 {
      WithoutNoMatch(rows[1..], expenseId, userId);
    } else {
      assert rows[0].id < rows[k].id;
      WithoutOne(rows[1..], k - 1, expenseId, userId);
      assert rows[..k] == [rows[0]] + rows[1..][..k - 1];
      assert rows[k + 1..] == rows[1..][k..];
    }
  }

  lemma {:induction false} WithoutKeepsIds(rows: seq<ExpenseRow>, expenseId: int, userId: int)
    requires IdsIncreasing(rows)
    ensures IdsIncreasing(Without(rows, expenseId, userId))
  {
    if rows != [] {
      var tail := rows[1..];
      TailIncreasing(rows);
      WithoutKeepsIds(tail, expenseId, userId);
      var rest := Without(tail, expenseId, userId);
      var r := Without(rows, expenseId, userId);
      if !Matches(rows[0], expenseId, userId) {
        assert r == [rows[0]] + rest;
        forall i, j | 0 <= i < j < |r| ensures r[i].id < r[j].id {
          if i == 0 {
            assert r[j] == rest[j - 1] && r[j] in tail;
            var k :| 0 <= k < |tail| && tail[k] == r[j];
            assert rows[k + 1] == r[j];
          } else {
            assert r[i] == rest[i - 1] && r[j] == rest[j - 1];
          }
        }
      }
    }
  }

  /** Deleting, as its owner, the row just saved restores the table that was there before. */
  lemma SaveThenDeleteRestores(rows: seq<ExpenseRow>, row: ExpenseRow)
    requires IdsIncreasing(rows)
    requires forall i :: 0 <= i < |rows| ==> rows[i].id < row.id
    ensures Without(rows + [row], row.id, row.userId) == rows
  {
    var all := rows + [row];
    assert IdsIncreasing(all) by {
      forall i, j | 0 <= i < j < |all| ensures all[i].id < all[j].id {
        if j < |rows| {
          assert all[i] == rows[i] && all[j] == rows[j];
        } else {
          assert all[i] == rows[i] && all[j] == row;
        }
      }
    }
    WithoutOne(all, |rows|, row.id, row.userId);
    assert all[..|rows|] == rows;
  }

  /** The categories of one user's rows, with repetition. */
  function CategoriesOf(rows: seq<ExpenseRow>, userId: int): (cs: seq<string>)
    ensures forall c :: c in cs <==> exists x :: x in rows && x.userId == userId && x.category == c
  {
    if rows == [] then []
    else
      assert rows == [rows[0]] + rows[1..];
      (if rows[0].userId == userId then [rows[0].category] else []) + CategoriesOf(rows[1..], userId)
  }

  /** `STRFTIME('%Y', date)` of one user's rows, with repetition. */
  function YearsOf(rows: seq<ExpenseRow>, userId: int): (ys: seq<int>)
    ensures forall y :: y in ys <==> exists x :: x in rows && x.userId == userId && x.date.year == y
  {
    if rows == [] then []
    else
      assert rows == [rows[0]] + rows[1..];
      (if rows[0].userId == userId then [rows[0].date.year] else []) + YearsOf(rows[1..], userId)
  }

  /** `SELECT MAX(amount) ... WHERE user_id = ?`: NULL (None) when the user has no rows. */
  function MaxAmountOf(rows: seq<ExpenseRow>, userId: int): (m: Option<real>)
    ensures m.None? <==> forall x :: x in rows ==> x.userId != userId
    ensures m.Some? ==> exists x :: x in rows && x.userId == userId && x.amount == m.value
    ensures m.Some? ==> forall x :: x in rows && x.userId == userId ==> x.amount <= m.value
  {
    if rows == [] then None
    else
      assert rows == [rows[0]] + rows[1..];
      var rest := MaxAmountOf(rows[1..], userId);
      if rows[0].userId != userId then rest
      else if rest.None? || rest.value < rows[0].amount then Some(rows[0].amount)
      else rest
  }

  ghost function OwnedAmounts(rows: seq<ExpenseRow>, userId: int): set<real> {
    set x | x in rows && x.userId == userId :: x.amount
  }

  /** Usernames key their rows, and user ids are distinct and issued by the counter. */
  ghost predicate UsersValid(users: map<string, UserRow>, last: int) {
    && last >= 0
    && (forall u :: u in users ==> users[u].username == u && 1 <= users[u].id <= last)
    && (forall u, v :: u in users && v in users && u != v ==> users[u].id != users[v].id)
  }

  /** Expense ids increase in rowid order and were issued by the counter. */
  ghost predicate ExpensesValid(rows: seq<ExpenseRow>, last: int) {
    last >= 0 && IdsIncreasing(rows) && IdsIssued(rows, last)
  }

  /** Some row matches both the id and the owner. */
  predicate AnyMatch(rows: seq<ExpenseRow>, expenseId: int, userId: int) {
    exists k :: 0 <= k < |rows| && Matches(rows[k], expenseId, userId)
  }

  /** `after` is `before` with one matching row taken out. */
  ghost predicate RemovedOneMatch(before: seq<ExpenseRow>, after: seq<ExpenseRow>, expenseId: int, userId: int) {
    exists k :: 0 <= k < |before| && Matches(before[k], expenseId, userId) && after == before[..k] + before[k + 1..]
  }

  /**
   * What `DELETE FROM expenses WHERE id = ? AND user_id = ?` does to a table with unique ids:
   * the row count drops iff some row matches, and then exactly that row is gone; otherwise the
   * table is unchanged. The table stays well formed either way.
   */
  lemma DeleteOutcome(rows: seq<ExpenseRow>, expenseId: int, userId: int, last: int)
    requires ExpensesValid(rows, last)
    ensures var r := Without(rows, expenseId, userId);
            && (|r| < |rows| <==> AnyMatch(rows, expenseId, userId))
            && (AnyMatch(rows, expenseId, userId) ==> RemovedOneMatch(rows, r, expenseId, userId))
            && (!AnyMatch(rows, expenseId, userId) ==> r == rows)
            && ExpensesValid(r, last)
  {
    var r := Without(rows, expenseId, userId);
    WithoutKeepsIds(rows, expenseId, userId);
    assert IdsIssued(r, last) by {
      forall x | x in r ensures 1 <= x.id <= last {
        assert x in rows;
      }
    }
    if k :| 0 <= k < |rows| && Matches(rows[k], expenseId, userId) {
      WithoutOne(rows, k, expenseId, userId);
      assert |r| == |rows| - 1;
    } else {
      WithoutNoMatch(rows, expenseId, userId);
    }
  }

  class DatabaseManager {
    /** `users`, keyed by its UNIQUE `username` column. */
    var users: map<string, UserRow>
    /** The AUTOINCREMENT high-water mark of `users.id`. */
    var lastUserId: int
    /** `expenses`, in rowid order. */
    var expenses: seq<ExpenseRow>
    /** The AUTOINCREMENT high-water mark of `expenses.id`. */
    var lastExpenseId: int
    /** `gemini_cache`, keyed by its `prompt_hash` primary key. */
    var cache: map<Digest, string>

    ghost predicate Valid()
      reads this
    {
      UsersValid(users, lastUserId) && ExpensesValid(expenses, lastExpenseId)
    }

    /** `_init_database` on a new database file: the three tables, all empty. */
    constructor ()
      ensures Valid()
      ensures users == map[] && expenses == [] && cache == map[]
      ensures lastUserId == 0 && lastExpenseId == 0
      ensures forall prompt :: GetCachedResponse(prompt) == None
    {
      users, expenses, cache := map[], [], map[];
      lastUserId, lastExpenseId := 0, 0;
    }

    /** `create_user`: the UNIQUE constraint on `username` rejects a second user of that name. */
    method CreateUser(username: string, password: string) returns (created: bool)
      requires Valid()
      modifies this
      ensures Valid()
      ensures created <==> username !in old(users)
      ensures created ==> lastUserId == old(lastUserId) + 1
      ensures created ==> users == old(users)[username := UserRow(lastUserId, username, HashValue(password))]
      ensures !created ==> users == old(users) && lastUserId == old(lastUserId)
      ensures created ==> AuthenticateUser(username, password) == Some(users[username])
      ensures expenses == old(expenses) && lastExpenseId == old(lastExpenseId) && cache == old(cache)
    {
      var passwordHash := HashValue(password);
      if username in users {
        // INSERT raises sqlite3.IntegrityError, caught and reported as False
        created := false;
      } else {
        lastUserId := lastUserId + 1;
        users := users[username := UserRow(lastUserId, username, passwordHash)];
        created := true;
      }
    }

    /** `authenticate_user`: the row with that username and that password's hash, if any. */
    function AuthenticateUser(username: string, password: string): (found: Option<UserRow>)
      reads this
      requires Valid()
      ensures found.Some? ==> found.value in users.Values
      ensures found.Some? ==> found.value.username == username && found.value.passwordHash == HashValue(password)
      ensures (exists row :: row in users.Values && row.username == username && row.passwordHash == HashValue(password))
                ==> found.Some?
    {
      if username in users && users[username].passwordHash == HashValue(password) then
        Some(users[username])
      else
        None
    }

    /** `save_expense`: one new row with a fresh id; `notes` defaults to the empty text. */
    method SaveExpense(data: ExpenseData)
      requires Valid()
      modifies this
      ensures Valid()
      ensures lastExpenseId == old(lastExpenseId) + 1
      ensures forall i :: 0 <= i < |old(expenses)| ==> old(expenses)[i].id < lastExpenseId
      ensures expenses == old(expenses) + [ExpenseRow(
        lastExpenseId, data.userId, data.category, data.title, data.amount, data.date, data.notes.GetOr(""))]
      ensures users == old(users) && lastUserId == old(lastUserId) && cache == old(cache)
    {
      lastExpenseId := lastExpenseId + 1;
      var row := ExpenseRow(
        lastExpenseId, data.userId, data.category, data.title, data.amount, data.date, data.notes.GetOr(""));
      expenses := expenses + [row];
    }

    /** `delete_expense`: removes the row only when both its id and its owner match. */
    method DeleteExpense(expenseId: int, userId: int) returns (deleted: bool)
      requires Valid()
      modifies this
      ensures Valid()
      ensures deleted <==> AnyMatch(old(expenses), expenseId, userId)
      ensures deleted ==> RemovedOneMatch(old(expenses), expenses, expenseId, userId)
      ensures !deleted ==> expenses == old(expenses)
      ensures users == old(users) && lastUserId == old(lastUserId)
      ensures lastExpenseId == old(lastExpenseId) && cache == old(cache)
    {
      var remaining := Without(expenses, expenseId, userId);
      DeleteOutcome(expenses, expenseId, userId, lastExpenseId);
      var rowcount := |expenses| - |remaining|;
      expenses := remaining;
      deleted := rowcount > 0;
    }

    /** `get_filtered_expenses`: builds the WHERE clause term by term, then runs it. */
    method GetFilteredExpenses(
      userId: int, start: Date, end: Date, categories: seq<string>, amountRange: Option<AmountRange>)
      returns (rows: seq<ExpenseRow>)
      ensures DateDescending(rows)
      ensures forall x :: multiset(rows)[x] ==
                if Wanted(x, userId, start, end, categories, amountRange) then multiset(expenses)[x] else 0
    {
      var query := [OwnedBy(userId), DateBetween(start, end)];
      if |categories| > 0 {
        query := query + [CategoryIn(categories)];
      }
      if amountRange.Some? {
        query := query + [AmountBetween(amountRange.value)];
      }
      forall x ensures HoldsAll(query, x) <==> Wanted(x, userId, start, end, categories, amountRange) {
        var base := [OwnedBy(userId), DateBetween(start, end)];
        HoldsAllAppend([OwnedBy(userId)], DateBetween(start, end), x);
        HoldsAllAppend([], OwnedBy(userId), x);
        assert [OwnedBy(userId)] == [] + [OwnedBy(userId)] && base == [OwnedBy(userId)] + [DateBetween(start, end)];
        if |categories| > 0 {
          HoldsAllAppend(base, CategoryIn(categories), x);
          if amountRange.Some? {
            HoldsAllAppend(base + [CategoryIn(categories)], AmountBetween(amountRange.value), x);
          }
        } else if amountRange.Some? {
          HoldsAllAppend(base, AmountBetween(amountRange.value), x);
        }
      }
      rows := SortByDateDesc(Select(expenses, query));
    }

    /** `get_user_categories`: this user's distinct categories, in ascending order. */
    function GetUserCategories(userId: int): (cs: seq<string>)
      reads this
      ensures Collation.StrictlySorted(cs, Collation.Ascending())
      ensures forall c :: c in cs <==> exists x :: x in expenses && x.userId == userId && x.category == c
    {
      Collation.DistinctSorted(CategoriesOf(expenses, userId), Collation.Ascending())
    }

    /** `get_user_expense_years`: the distinct years of this user's rows, latest first. */
    function GetUserExpenseYears(userId: int): (ys: seq<int>)
      reads this
      ensures Collation.StrictlySorted(ys, Collation.Descending())
      ensures forall y :: y in ys <==> exists x :: x in expenses && x.userId == userId && x.date.year == y
    {
      Collation.DistinctSorted(YearsOf(expenses, userId), Collation.Descending())
    }

    /** `get_max_expense_amount`: `MAX(amount) or 1000.0`, so a missing or zero maximum gives 1000.0. */
    function GetMaxExpenseAmount(userId: int): (m: real)
      reads this
      ensures OwnedAmounts(expenses, userId) == {} ==> m == 1000.0
      ensures OwnedAmounts(expenses, userId) != {} ==>
                || (m in OwnedAmounts(expenses, userId) && m != 0.0
                    && forall a :: a in OwnedAmounts(expenses, userId) ==> a <= m)
                || (m == 1000.0 && 0.0 in OwnedAmounts(expenses, userId)
                    && forall a :: a in OwnedAmounts(expenses, userId) ==> a <= 0.0)
    {
      var top := MaxAmountOf(expenses, userId);
      assert top.Some? ==> top.value in OwnedAmounts(expenses, userId);
      assert top.None? ==> OwnedAmounts(expenses, userId) == {};
      if top.None? || top.value == 0.0 then 1000.0 else top.value
    }

    /** `get_cached_response`: the payload stored under the prompt's hash, if any. */
    function GetCachedResponse(prompt: string): (r: Option<string>)
      reads this
      ensures r.Some? <==> HashValue(prompt) in cache
      ensures r.Some? ==> r.value == cache[HashValue(prompt)]
    {
      var key := HashValue(prompt);
      if key in cache then Some(cache[key]) else None
    }

    /** `cache_response`: INSERT OR REPLACE, so a second response for a prompt overwrites the first. */
    method CacheResponse(prompt: string, response: string)
      requires Valid()
      modifies this
      ensures Valid()
      ensures cache == old(cache)[HashValue(prompt) := response]
      ensures GetCachedResponse(prompt) == Some(response)
      ensures forall other :: other != prompt ==> GetCachedResponse(other) == old(GetCachedResponse(other))
      ensures users == old(users) && lastUserId == old(lastUserId)
      ensures expenses == old(expenses) && lastExpenseId == old(lastExpenseId)
    {
      var key := HashValue(prompt);
      cache := cache[key := response];
    }
  }
}
