/** The typed columns of the device table, as far as they decide what is stored of a text. */
module TypedColumns {
  import opened Bytes
  import opened Audit

  /** The text the column gives back for a stored one, or `None` where the database refuses it. */
  type Column = string -> Option<string>

  /** `mac` and `ip` are the columns of the unique address pair, `text` those of the other attributes. */
  datatype Columns = Columns(mac: Column, ip: Column, text: Field -> Column)

  function Stored(db: Columns, field: Field, value: string): Option<string> {
    if field == IpAddress then db.ip(value) else db.text(field)(value)
  }
}
