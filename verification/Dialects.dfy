/** The database systems that SQLRDD tells apart, and the row limit SQLEX writes for each. */
module Dialects {
  import opened IndexOrder

  datatype Rdbms =
    | Unknown | Oracle | MsSql6 | MsSql7 | SqlAny | Sybase | Access | Ingres
    | SqlBase | Adabas | Informix | IbmDb2 | MySql | Postgres | Firebird | Cache
    | Oterro | Pervasive | Azure | MariaDb | Firebird3 | Firebird4 | Firebird5 | Cubrid

  /** The dialects for which a TOP, FIRST, LIMIT or FETCH FIRST clause is written. */
  predicate LimitsRows(db: Rdbms)
  {
    match db
    case MsSql7 | Cache | Sybase => true
    case Firebird | Firebird3 | Firebird4 | Firebird5 | Informix => true
    case Postgres | MySql | MariaDb => true
    case IbmDb2 => true
    case _ => false
  }

  /** A statement for more than one row asks for one row more than the caller wants. */
  function ResultSetLimit(db: Rdbms, rows: nat): Limit
  {
    if !LimitsRows(db) then Unlimited
    else AtMost(if rows > 1 then rows + 1 else rows)
  }
}
