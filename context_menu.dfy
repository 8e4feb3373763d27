/** The context-menu state (frontend/src/store/contextMenuStore.ts): whether the menu is
    open, where, the video time it was opened at, and the chunk it acts on. */
module ContextMenu {
  import opened Wrappers
  import opened AnnotationTypes

  class MenuState {
    var isOpen: bool
    var x: real
    var y: real
    var time: Option<real>
    var targetChunkId: Option<Id>

    /** Closed, at (0, 0), with neither a time nor a target chunk. */
    constructor()
      ensures !isOpen && x == 0.0 && y == 0.0 && time == None && targetChunkId == None
    {
      isOpen, x, y, time, targetChunkId := false, 0.0, 0.0, None, None;
    }

    /** `openMenu(x, y, time?, chunkId?)`: an omitted time or chunk is stored as `None`, so
        nothing of an earlier opening survives. */
    method OpenMenu(atX: real, atY: real, at: Option<real>, chunkId: Option<Id>)
      modifies this
      ensures isOpen && x == atX && y == atY && time == at && targetChunkId == chunkId
    {
      isOpen, x, y, time, targetChunkId := true, atX, atY, at, chunkId;
    }

    /** `closeMenu()`: only the open flag changes. */
    method CloseMenu()
      modifies this
      ensures !isOpen
      ensures x == old(x) && y == old(y) && time == old(time) && targetChunkId == old(targetChunkId)
    {
      isOpen := false;
    }
  }

  /** Opening and then closing the menu leaves what was opened in place, so a menu item
      still sees the target of the last opening after the menu is dismissed. */
  method OpenThenClose(menu: MenuState, atX: real, atY: real, at: Option<real>, chunkId: Option<Id>)
    modifies menu
    ensures !menu.isOpen && menu.x == atX && menu.y == atY && menu.time == at && menu.targetChunkId == chunkId
  {
    menu.OpenMenu(atX, atY, at, chunkId);
    menu.CloseMenu();
  }
}
