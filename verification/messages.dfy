/** Value types shared by the sweep (voter.js), the read/vote path (database.js)
    and the session table (user.js): one stored message document and its votes. */
module Messages {

  /** The conventional Some/None datatype; None stands for JavaScript's `undefined`. */
  datatype Option<+T> = None | Some(value: T)

  type MsgId = string
  type VendorId = string

  /** Milliseconds in one hour: the age at which a message starts to need votes,
      and the widest voting window. */
  const OneHourMsec: int := 3600000

  /** A longitude/latitude pair. */
  datatype Location = Location(lng: real, lat: real)

  /** One vote: who cast it and when (milliseconds since the epoch). */
  datatype Vote = Vote(vendorID: VendorId, time: int)

  /** A stored message document. `time` is its creation time in milliseconds,
      `rand` its sampling key in [0,1), `nsfw` the profanity flag. */
  datatype Message = Message(
    id: MsgId,
    vendorID: VendorId,
    message: string,
    location: Location,
    rating: real,
    votes: seq<Vote>,
    time: int,
    nsfw: bool,
    rand: real)
}
