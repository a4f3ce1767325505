/** The plain data shared by every part of fenster: rectangles, monitors, saved
    layouts and the runtime view of a window. */
module Types {

  newtype int32 = x: int | -0x8000_0000 <= x < 0x8000_0000

  datatype Option<+T> = None | Some(value: T)

  datatype Rect = Rect(x: int32, y: int32, w: int32, h: int32)

  /** One display of the virtual screen. `work` is its taskbar-free part, or a
      rectangle without area when it is unknown. */
  datatype Monitor = Monitor(x: int32, y: int32, w: int32, h: int32, scale: int, primary: bool, work: Rect)

  datatype Setup = Setup(fingerprint: string, caption: string, monitors: seq<Monitor>)

  /** One saved window. `ticked` is the persisted checkbox (the source calls it Include). */
  datatype WindowEntry = WindowEntry(exe: string, cls: string, title: string, ordinal: nat,
                                     rect: Rect, screen: Rect, state: string, topmost: bool, ticked: bool)

  /** A named arrangement. Time stamps are opaque numbers handed in by the clock. */
  datatype Layout = Layout(id: string, name: string, created: int, updated: int,
                           setup: Setup, windows: seq<WindowEntry>, hotkey: string)

  ghost predicate DistinctIDs(layouts: seq<Layout>) {
    forall i, j :: 0 <= i < j < |layouts| ==> layouts[i].id != layouts[j].id
  }

  /** The root of layouts.json. An unset option means "on". */
  datatype File = File(minimizeOthers: Option<bool>, layouts: seq<Layout>)

  const STATE_MINIMIZED := "minimized"

  /** The runtime view of one top-level window. */
  datatype Live = Live(handle: nat, title: string, cls: string, exe: string, rect: Rect, screen: Rect,
                       state: string, topmost: bool, visible: bool, cloaked: bool, tool: bool, own: bool)
}
