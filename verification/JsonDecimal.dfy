/** Decimals in extended JSON: which of them are read back is decided by their bits. */
module JsonDecimal {
  import opened CInt
  import opened LittleEndian
  import opened BsonTree
  import opened Utf8
  import opened JsonMachine
  import opened JsonPrint
  import opened JsonScalars
  import D = Decimal128
  import Scan = Decimal128Scan
  import Parser = Decimal128Parse
  import Trip = Decimal128RoundTrip

  /** The conversion of the reader is bson_decimal128_from_string. */
  ghost predicate LibraryParser(c: Conversions) {
    forall text: bytes :: 0 !in text ==> exists ok, d :: ParsedAs(text, ok, d, c.parseDecimal(text))
  }

  ghost predicate ParsedAs(text: bytes, ok: bool, d: D.Bits, r: Option<(int, int)>) {
    Parser.Converted(Scan.Parse(text), ok, d) && r == if ok then Some((d.low as int, d.high as int)) else None
  }

  /** The conversion of the printer is bson_decimal128_to_string. */
  ghost predicate LibraryPrinter(p: Printers) {
    forall low, high: int :: 0 <= low < TWO_64 && 0 <= high < TWO_64 ==> p.decimal(low, high) == D.Text(D.Bits(high, low))
  }

  /** With the library's own conversions a decimal is readable exactly when its bits are ones the parser produces. */
  lemma DecimalReadableIff(d: D.Bits, inScope: bool, c: Conversions, p: Printers)
    requires LibraryParser(c) && LibraryPrinter(p)
    ensures Readable(Decimal128(d.low, d.high), inScope, c, p) <==> Trip.FixedBits(d)
  {
    hide Scan.Parse, D.Text, Parser.Converted, Trip.FixedBits, Utf8Valid;
    var text := p.decimal(d.low, d.high);
    Trip.TextIsAscii(d);
    AsciiValid(text, true);
    var ok, back :| ParsedAs(text, ok, back, c.parseDecimal(text));
    Trip.RoundTrip(d, ok, back);
  }
}
