/** The Java and JDBC primitives the connection works with. */
module JdbcTypes {

  /** A Java `int`: what `ResultSet.getInt` and `Statement.getUpdateCount` return. */
  newtype int32 = x: int | -0x8000_0000 <= x < 0x8000_0000

  /** Type codes of `java.sql.Types`. */
  const BIT: int32 := -7
  const BOOLEAN: int32 := 16
}
