/**
 * The value-marshalling overrides of the MySQL connection: how a column read
 * from a JDBC result set becomes a Ruby value, and what a mutating statement
 * reports back (a generated key, or else its update count).
 */
module MySQLValues {
  import opened Wrappers
  import opened JdbcTypes

  /** The Ruby objects the connection hands back to the host. */
  datatype RubyValue =
    | Nil
    | RubyTrue
    | RubyFalse
    | Fixnum(n: int)
    | RubyString(s: string)
    | Other(handle: nat)   // any object built by the generic decoder

  predicate IsBooleanType(sqlType: int32) {
    sqlType == BOOLEAN || sqlType == BIT
  }

  /**
   * `jdbcToRuby`: a BOOLEAN or BIT column is read with `getBoolean` and becomes
   * nil when the driver reports SQL NULL, otherwise the integer 1 or 0; every
   * other type code goes to the generic decoder of the base connection.
   * `getBoolean(column)` is the result set's boolean read together with
   * `wasNull()` (None for SQL NULL); `genericToRuby` is the base decoder.
   */
  function JdbcToRuby(column: int, sqlType: int32, getBoolean: int -> Option<bool>,
                      genericToRuby: (int, int32) -> RubyValue): (v: RubyValue)
    ensures IsBooleanType(sqlType) ==> (v == Nil <==> getBoolean(column) == None)
    ensures IsBooleanType(sqlType) ==> v != RubyTrue && v != RubyFalse
    ensures IsBooleanType(sqlType) && getBoolean(column) == Some(true) ==> v == Fixnum(1)
    ensures IsBooleanType(sqlType) && getBoolean(column) == Some(false) ==> v == Fixnum(0)
    ensures !IsBooleanType(sqlType) ==> v == genericToRuby(column, sqlType)
  {
    if IsBooleanType(sqlType) then
      match getBoolean(column)
      case None => Nil
      case Some(b) => Fixnum(if b then 1 else 0)
    else
      genericToRuby(column, sqlType)
  }

  /** Reads a marshalled BOOLEAN/BIT value back: nil, 1 or 0; anything else is not one. */
  function BooleanFromRuby(v: RubyValue): (r: Option<Option<bool>>)
    ensures r.Some? <==> v in {Nil, Fixnum(0), Fixnum(1)}
  {
    match v
    case Nil => Some(None)
    case Fixnum(n) => if n == 1 then Some(Some(true)) else if n == 0 then Some(Some(false)) else None
    case _ => None
  }

  /** No information is lost by the BOOLEAN/BIT override: the SQL value is recovered from the Ruby one. */
  lemma BooleanMarshalRoundTrip(column: int, sqlType: int32, getBoolean: int -> Option<bool>,
                                genericToRuby: (int, int32) -> RubyValue)
    requires IsBooleanType(sqlType)
    ensures BooleanFromRuby(JdbcToRuby(column, sqlType, getBoolean, genericToRuby)) == Some(getBoolean(column))
  {
  }

  /**
   * `unmarshalKeysOrUpdateCount`: `key` is what decoding the statement's
   * generated keys produced (nil when there was none); when it is nil the
   * statement's update count is returned as a Ruby integer instead.
   */
  function KeysOrUpdateCount(key: RubyValue, updateCount: int32): (r: RubyValue)
    ensures r != Nil
    ensures key != Nil ==> r == key
    ensures key == Nil ==> r == Fixnum(updateCount as int)
  {
    if key.Nil? then Fixnum(updateCount as int) else key
  }
}
