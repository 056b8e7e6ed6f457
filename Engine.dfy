/** An abstract stand-in for the media engine the widget drives. Only what
    the widget observes is kept: the loaded source and the playback state.
    Every command the widget issues is also recorded in a log, so that the
    widget's contracts can say exactly which engine calls a slot makes. */
module Engine {

  datatype PlaybackState = Stopped | Playing | Paused

  datatype Player = Player(source: string, state: PlaybackState)

  /** The engine calls the widget makes. */
  datatype Command = SetSource(path: string) | Play | Pause | Stop

  /** The player with nothing loaded, as the widget starts. */
  const Idle := Player("", Stopped)

  /** The effect of one command: a new source is loaded stopped; play and
      pause act only when a source is loaded; stop keeps the source. */
  function Apply(p: Player, c: Command): (q: Player)
  {
    match c
    case SetSource(path) => Player(path, Stopped)
    case Play => if p.source != "" then p.(state := Playing) else p
    case Pause => if p.source != "" then p.(state := Paused) else p
    case Stop => p.(state := Stopped)
  }

  /** The engine reaching the end of its source: it stops by itself and
      keeps the source loaded, before it reports the end of the media. */
  function EndOfMedia(p: Player): (q: Player)
  {
    p.(state := Stopped)
  }
}
