/**
 * The checksum check that closes a load: each table's stored `(hash, count)` record, written
 * when the table was dumped, is compared with the digest of its freshly loaded schema and its
 * fresh row count, and the outcome is shown in the table's status cell.
 */
module Checksums {

  /** The record kept in `<table>_checksum.dat`: the schema's digest and the row-count output. */
  datatype Checksum = Checksum(hash: string, count: string)

  /** The record the dump writes for a table, given its schema text and its count output. */
  function Record(schema: string, count: string, md5: string -> string): Checksum
  {
    Checksum(md5(schema), count)
  }

  /**
   * The status token for the two comparisons: "OK" when both agree, otherwise "M" for a schema
   * mismatch followed by "C" for a count mismatch.
   */
  function Token(hashOk: bool, countOk: bool): (t: string)
    ensures t == "OK" <==> hashOk && countOk
    ensures 1 <= |t| <= 2
  {
    if hashOk && countOk then "OK"
    else if hashOk then "C"
    else if countOk then "M"
    else assert "MC"[0] != "OK"[0]; "MC"
  }

  /** The token names exactly the checks that failed: it can be decoded back into the two outcomes. */
  lemma TokenDecodes(h1: bool, c1: bool, h2: bool, c2: bool)
    requires Token(h1, c1) == Token(h2, c2)
    ensures h1 == h2 && c1 == c2
  {
  }

  /**
   * The check for one table. As in the script, the failure token is built by appending to an
   * initially empty string.
   */
  method VerifyTable(stored: Checksum, schema: string, count: string, md5: string -> string)
    returns (status: string)
    ensures status == "OK" <==> stored == Record(schema, count, md5)
    ensures status != "OK" ==> ('M' in status <==> stored.hash != md5(schema))
    ensures status != "OK" ==> ('C' in status <==> stored.count != count)
    ensures status in {"OK", "M", "C", "MC"}
    ensures status == Token(stored.hash == md5(schema), stored.count == count)
  {
    var digest := md5(schema);
    if stored.hash == digest && stored.count == count {
      status := "OK";
    } else {
      status := "";
      if stored.hash != digest {
        status := status + "M";
        assert status == "M";
      }
      if stored.count != count {
        assert status + "C" == if status == "M" then "MC" else "C";
        status := status + "C";
      }
      assert status == "MC" ==> status[0] != "OK"[0];
    }
  }
}
