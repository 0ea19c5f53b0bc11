/** The app's records, one datatype per entity. Times are epoch
    milliseconds; optional fields are `Option` (absent is `None`). */
module Types {
  import opened Wrappers

  /** The tab bar's closed set of screens. */
  datatype Tab = TODO | CALENDAR | IDEAS

  /** A task of the to-do list. */
  datatype Todo = Todo(
    id: string,
    text: string,
    completed: bool,
    createdAt: int,
    completedAt: Option<int>,
    archivedDate: Option<string>)   // YYYY-MM-DD once archived

  /** A calendar entry, stored in the bucket of its own date. */
  datatype CalendarEvent = CalendarEvent(
    id: string,
    dateStr: string,                // YYYY-MM-DD
    title: string,
    time: Option<string>,           // HH:MM
    completed: Option<bool>)

  /** A card of the idea board. */
  datatype Idea = Idea(
    id: string,
    content: string,
    color: string,                  // background colour class
    createdAt: int,
    tags: Option<seq<string>>)

  /** The background colours an idea card may get. */
  const PastelColors: seq<string> := [
    "bg-red-100", "bg-orange-100", "bg-amber-100", "bg-green-100", "bg-emerald-100",
    "bg-teal-100", "bg-cyan-100", "bg-sky-100", "bg-blue-100", "bg-indigo-100",
    "bg-violet-100", "bg-purple-100", "bg-fuchsia-100", "bg-pink-100", "bg-rose-100"]
}
