/** The normalised event types every stage shares (internal/model/types.go).

Prices, quantities and update ids are int64 in the system.  They are only
compared and stored here, and the one sum (`last + 1` in the sequencer) is
taken where it cannot leave the int64 range, so they are modelled as `int`.
*/
module MarketModel {

  /** A Go string is a byte sequence. */
  type Symbol = seq<bv8>

  datatype Option<+T> = None | Some(value: T)

  datatype Level = Level(price: int, qty: int)

  datatype BookDelta =
    BookDelta(symbol: Symbol, firstId: int, lastId: int, bids: seq<Level>, asks: seq<Level>)

  datatype Snapshot =
    Snapshot(symbol: Symbol, lastId: int, bids: seq<Level>, asks: seq<Level>, truncated: bool)

  /** The tagged struct Event; `Unknown` stands for a kind outside the three constants. */
  datatype Event = Trade(symbol: Symbol) | Delta(delta: BookDelta) | Snap(snap: Snapshot) | Unknown

  /** eventSymbol. */
  function EventSymbol(ev: Event): Option<Symbol> {
    match ev
    case Trade(s) => Some(s)
    case Delta(d) => Some(d.symbol)
    case Snap(s) => Some(s.symbol)
    case Unknown => None
  }
}
