/** The plugin object: it owns the attendance record and the quota, loads the
    record at start-up and flips one day of it on every click. */
module Plugin {
  import opened Attendance

  /** The outcome of reading and parsing the stored file, which the host
      performs: the file is absent (the plugin then creates it holding `{}`),
      reading it fails, parsing its content fails, or it parses to a record. */
  datatype LoadOutcome = FileMissing | ReadFailed | ParseFailed | Parsed(record: Record)

  /** The record the plugin holds after loading: the parsed record, or empty
      on every other outcome. */
  function LoadedRecord(outcome: LoadOutcome): (r: Record)
    ensures outcome.Parsed? ==> r == outcome.record
    ensures !outcome.Parsed? ==> r == map[] && TotalOnsite(r) == 0
  {
    match outcome
    case Parsed(record) => record
    case FileMissing => map[]
    case ReadFailed => map[]
    case ParseFailed => map[]
  }

  class OnsiteCalendarPlugin {
    var data: Record
    const filePath: string
    const quota: int

    /** A fresh plugin holds the empty record and the fixed quota of 8. */
    constructor ()
      ensures data == map[] && TotalOnsite(data) == 0
      ensures filePath == "onsite_days.json" && quota == 8
    {
      data := map[];
      filePath := "onsite_days.json";
      quota := 8;
    }

    /** Loading replaces the record by the parsed one, or by the empty record
        when the file is missing or cannot be read or parsed. */
    method LoadDataFile(outcome: LoadOutcome)
      modifies this`data
      ensures data == LoadedRecord(outcome)
    {
      match outcome {
        case Parsed(record) =>
          data := record;
        case FileMissing =>
          data := map[];
        case ReadFailed =>
          data := map[];
        case ParseFailed =>
          data := map[];
      }
    }

    /** `data[date] = !data[date]`: the day's flag flips (an absent day becomes
        present and true), every other entry stays, and the total moves by one. */
    method ToggleDay(date: string)
      modifies this`data
      ensures data == Toggled(old(data), date)
      ensures IsOnsite(data, date) == !old(IsOnsite(data, date))
      ensures data.Keys == old(data.Keys) + {date}
      ensures forall k :: k in old(data) && k != date ==> data[k] == old(data[k])
      ensures TotalOnsite(data) == if old(IsOnsite(data, date)) then old(TotalOnsite(data)) - 1 else old(TotalOnsite(data)) + 1
    {
      ToggleTotal(data, date);
      data := data[date := !IsOnsite(data, date)];
    }
  }
}
