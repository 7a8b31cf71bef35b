/**
 * The records the load comparison works on: one load at one bus of one case.
 */
module Loads {

  /** What the vendor's load accessor reports for one load (id, constant P, constant Q, status). */
  datatype RawLoad = RawLoad(id: string, p: real, q: real, status: int)

  /** One load at one bus in one case snapshot (the `LoadInfo` dataclass). */
  datatype LoadInfo = LoadInfo(bus: int, loadId: string, p: real, q: real, status: int)

  /** The identity of a load across cases: bus number, then load id. */
  type Key = (int, string)

  function KeyOf(ld: LoadInfo): Key {
    (ld.bus, ld.loadId)
  }

  /** The record built for a load the accessor resolved at `bus`. */
  function FromRaw(bus: int, raw: RawLoad): LoadInfo {
    LoadInfo(bus, raw.id, raw.p, raw.q, raw.status)
  }

}
