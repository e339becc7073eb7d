/**
 * The `banned_users` table: rows keyed by ip, each with a reason and an
 * optional expiry. The table is a map from address to entry, so "at most one
 * row per ip" (the PRIMARY KEY) holds by construction.
 */
module BanTable {
  import opened Types

  datatype BanEntry = BanEntry(reason: string, expiresAt: Option<Timestamp>)

  type Table = map<Address, BanEntry>

  /** One row as `SELECT * FROM banned_users` returns it. */
  datatype BanRow = BanRow(ip: Address, reason: string, expiresAt: Option<Timestamp>)

  /** The admission query: is there any row for `ip`? The row's expiry plays no
      part; an address is refused iff the ban listing shows a row for it. */
  predicate IsBanned(t: Table, ip: Address): (b: bool)
    ensures b <==> exists row :: row in Rows(t) && row.ip == ip
  {
    RowOf(t, ip);
    ip in t
  }

  lemma RowOf(t: Table, ip: Address)
    ensures ip in t ==> BanRow(ip, t[ip].reason, t[ip].expiresAt) in Rows(t)
  {
  }

  /** `INSERT OR REPLACE INTO banned_users (ip, reason)`: the row for `ip`
      becomes (reason, no expiry), whatever was there before; every other row
      is kept. */
  function Upsert(t: Table, ip: Address, reason: string): (t': Table)
    ensures ip in t' && t'[ip] == BanEntry(reason, None)
    ensures t'.Keys == t.Keys + {ip}
    ensures forall a :: a in t && a != ip ==> t'[a] == t[a]
  {
    t[ip := BanEntry(reason, None)]
  }

  /** `DELETE FROM banned_users WHERE ip = ?`: the row for `ip` disappears if it
      was there; every other row is kept; with no such row nothing changes. */
  function Remove(t: Table, ip: Address): (t': Table)
    ensures t'.Keys == t.Keys - {ip}
    ensures forall a :: a in t' ==> t'[a] == t[a]
    ensures ip !in t ==> t' == t
  {
    t - {ip}
  }

  /** `SELECT * FROM banned_users`: every row, in no particular order. */
  function Rows(t: Table): (rows: set<BanRow>)
    ensures forall row :: row in rows <==> row.ip in t && t[row.ip] == BanEntry(row.reason, row.expiresAt)
  {
    set ip | ip in t :: BanRow(ip, t[ip].reason, t[ip].expiresAt)
  }

  /** No row carries an expiry. */
  predicate NoExpiry(t: Table) {
    forall a :: a in t ==> t[a].expiresAt.None?
  }

  /** After a ban, the address is refused; every other address keeps its verdict. */
  lemma BanRefuses(t: Table, ip: Address, reason: string, other: Address)
    ensures IsBanned(Upsert(t, ip, reason), ip)
    ensures other != ip ==> (IsBanned(Upsert(t, ip, reason), other) <==> IsBanned(t, other))
  {
  }

  /** After an unban, the address is admitted; every other address keeps its verdict. */
  lemma UnbanAdmits(t: Table, ip: Address, other: Address)
    ensures !IsBanned(Remove(t, ip), ip)
    ensures other != ip ==> (IsBanned(Remove(t, ip), other) <==> IsBanned(t, other))
  {
  }

  /** Unbanning an address that was not banned undoes a ban of it exactly. */
  lemma UnbanUndoesBan(t: Table, ip: Address, reason: string)
    requires ip !in t
    ensures Remove(Upsert(t, ip, reason), ip) == t
  {
  }

  /** A second ban of the same address replaces the first: the last reason wins,
      and any expiry the earlier row had is gone. */
  lemma BanReplaces(t: Table, ip: Address, r1: string, r2: string)
    ensures Upsert(Upsert(t, ip, r1), ip, r2) == Upsert(t, ip, r2)
    ensures Upsert(t, ip, r2)[ip].expiresAt == None
  {
  }

  /** Unban is idempotent. */
  lemma UnbanIdempotent(t: Table, ip: Address)
    ensures Remove(Remove(t, ip), ip) == Remove(t, ip)
  {
  }

  /** The admission check ignores expiry: an entry with any expiry, past or
      future, refuses its address exactly as one without. */
  lemma ExpiryIgnored(t: Table, ip: Address, e: BanEntry, a: Address)
    ensures IsBanned(t[ip := e], ip)
    ensures IsBanned(t[ip := e], a) <==> IsBanned(t[ip := e.(expiresAt := None)], a)
  {
  }

  /** No operation of the gateway sets an expiry: a table without expiries
      keeps having none through bans and unbans. */
  lemma NoOperationSetsExpiry(t: Table, ip: Address, reason: string)
    requires NoExpiry(t)
    ensures NoExpiry(Upsert(t, ip, reason))
    ensures NoExpiry(Remove(t, ip))
  {
  }

  /** The listing has exactly one row per banned address. */
  lemma {:induction false} RowsOnePerAddress(t: Table)
    ensures |Rows(t)| == |t.Keys|
    decreases |t.Keys|
  {
    if t.Keys != {} {
      var ip :| ip in t.Keys;
      var rest := t - {ip};
      RowsOnePerAddress(rest);
      var row := BanRow(ip, t[ip].reason, t[ip].expiresAt);
      assert Rows(t) == Rows(rest) + {row};
      assert row !in Rows(rest);
      assert t.Keys == rest.Keys + {ip};
    } else {
      assert Rows(t) == {};
    }
  }
}
