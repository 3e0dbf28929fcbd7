/** The records of the export document, without database IDs. */
module BackupModels {
  import opened Civil

  datatype Setting = Setting(key: string, value: string)

  datatype Event = Event(start: Time, end: Time, excluded: bool, off: bool)

  datatype Document = Document(settings: seq<Setting>, events: seq<Event>)
}
