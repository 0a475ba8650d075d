/**
 * The tile container of the viewer (RulesEngine/src/bevy_interface/tile_render/models.rs):
 * a stack of equally sized tile grids, its size, the size last rendered and
 * a dirty flag for the tile contents. Screen placement (root, cell size) is
 * not modelled.
 */
module TileRender {
  import CoreModels

  datatype TileType = Empty | Floor | Wall | Box | Target | Player

  /** `ALL_TILE_TYPES`. */
  const ALL_TILE_TYPES: seq<TileType> := [Empty, Floor, Wall, Box, Target, Player]

  /** `TileType::all` lists every tile type, each once. */
  lemma AllTileTypesComplete(t: TileType)
    ensures t in ALL_TILE_TYPES
    ensures forall i, j :: 0 <= i < j < |ALL_TILE_TYPES| ==> ALL_TILE_TYPES[i] != ALL_TILE_TYPES[j]
  {
  }

  /** `file_name`: the sprite of each tile type. */
  function FileName(t: TileType): (r: string)
    ensures |r| > 0
  {
    match t
    case Empty => "sprites/tiles/empty.png"
    case Floor => "sprites/tiles/floor.png"
    case Wall => "sprites/tiles/wall.png"
    case Box => "sprites/tiles/box.png"
    case Target => "sprites/tiles/target.png"
    case Player => "sprites/tiles/player.png"
  }

  /** Different tile types load different sprites. */
  lemma FileNamesDistinct(s: TileType, t: TileType)
    ensures FileName(s) == FileName(t) <==> s == t
  {
    if s != t {
      assert FileName(s)[14] != FileName(t)[14];
    }
  }

  datatype IVec2 = IVec2(x: int, y: int)

  datatype IVec3 = IVec3(x: int, y: int, z: int)

  /** A tile position: the column and row of a cell, and the layer. */
  datatype TileLocation = TileLocation(location: IVec2, depth: nat)

  /** `n as i32` for a length: two's-complement truncation to 32 bits. */
  function AsI32(n: nat): (r: int)
    ensures -0x8000_0000 <= r < 0x8000_0000
    ensures n < 0x8000_0000 ==> r == n
  {
    var w := n % 0x1_0000_0000;
    if w < 0x8000_0000 then w else w - 0x1_0000_0000
  }

  /** Every layer has `y` rows and every row `x` cells; the size `assign_new_grids` asserts. */
  predicate Uniform(grids: seq<seq<seq<TileType>>>, x: nat, y: nat) {
    forall d :: 0 <= d < |grids| ==> |grids[d]| == y && forall r :: 0 <= r < y ==> |grids[d][r]| == x
  }

  /** The width and height `assign_new_grids` reads off the first layer. */
  function FirstLayerSize(grids: seq<seq<seq<TileType>>>): (r: (nat, nat))
    requires |grids| > 0
    ensures r.1 == |grids[0]|
    ensures r.0 == if |grids[0]| > 0 then |grids[0][0]| else 0
  {
    var y := |grids[0]|;
    (if y > 0 then |grids[0][0]| else 0, y)
  }

  /** The cell at a location is stored: the layer, the row and the column are all in range. */
  predicate InRange(grids: seq<seq<seq<TileType>>>, slot: TileLocation) {
    slot.depth < |grids| &&
    0 <= slot.location.y < |grids[slot.depth]| &&
    0 <= slot.location.x < |grids[slot.depth][slot.location.y]|
  }

  class Tiles {
    var grids: seq<seq<seq<TileType>>>
    var gridSize: IVec3
    var renderedGridSize: IVec3
    var tileContentsDirty: bool

    /** `new_empty`: no layers, zero sizes, clean. */
    constructor NewEmpty()
      ensures grids == [] && gridSize == IVec3(0, 0, 0) && renderedGridSize == IVec3(0, 0, 0)
      ensures !tileContentsDirty
    {
      grids := [];
      gridSize := IVec3(0, 0, 0);
      renderedGridSize := IVec3(0, 0, 0);
      tileContentsDirty := false;
    }

    /**
     * `assign_new_grids`: the new layers replace the old and the contents
     * become dirty. No layers keep the width and height and set the depth
     * to 0; otherwise the size is the first layer's width and height and
     * the number of layers, and every layer must have that size (the code
     * panics otherwise). The rendered size is left alone.
     */
    method AssignNewGrids(newGrids: seq<seq<seq<TileType>>>)
      requires |newGrids| > 0 ==> Uniform(newGrids, FirstLayerSize(newGrids).0, FirstLayerSize(newGrids).1)
      modifies this
      ensures grids == newGrids && tileContentsDirty && renderedGridSize == old(renderedGridSize)
      ensures |newGrids| == 0 ==> gridSize == old(gridSize).(z := 0)
      ensures |newGrids| > 0 ==>
                gridSize == IVec3(AsI32(FirstLayerSize(newGrids).0), AsI32(FirstLayerSize(newGrids).1), AsI32(|newGrids|))
    {
      if |newGrids| == 0 {
        grids := newGrids;
        tileContentsDirty := true;
        gridSize := gridSize.(z := 0);
        return;
      }
      var y := |newGrids[0]|;
      var x := if y > 0 then |newGrids[0][0]| else 0;
      var depth := |newGrids|;
      grids := newGrids;
      tileContentsDirty := true;
      gridSize := IVec3(AsI32(x), AsI32(y), AsI32(depth));
    }

    /** `get_grid_size`. */
    function GetGridSize(): (r: IVec3)
      reads this
      ensures r == gridSize
    {
      gridSize
    }

    /** `get_new_rendered_size`: nothing when the size is the rendered one, and the size otherwise. */
    function GetNewRenderedSize(): (r: CoreModels.Option<IVec3>)
      reads this
      ensures r.None? <==> gridSize == renderedGridSize
      ensures r.Some? ==> r.value == gridSize
    {
      if gridSize == renderedGridSize then CoreModels.None else CoreModels.Some(gridSize)
    }

    /**
     * `mark_grid_rendered_to_size`: records the rendered size (a mismatch
     * with the grid size is only reported), so marking the current size
     * leaves nothing to render.
     */
    method MarkGridRenderedToSize(newSize: IVec3)
      modifies this
      ensures renderedGridSize == newSize
      ensures grids == old(grids) && gridSize == old(gridSize) && tileContentsDirty == old(tileContentsDirty)
      ensures newSize == GetGridSize() ==> GetNewRenderedSize() == CoreModels.None
      ensures newSize != GetGridSize() ==> GetNewRenderedSize() == CoreModels.Some(gridSize)
    {
      renderedGridSize := newSize;
    }

    /** `get_tile_count`: the number of layers. */
    function GetTileCount(): (r: nat)
      reads this
      ensures r == |grids|
    {
      |grids|
    }

    /** `get_tile_at`: the stored tile, or `Empty` for a layer, row or column out of range. */
    function GetTileAt(slot: TileLocation): (r: TileType)
      reads this
      ensures InRange(grids, slot) ==> r == grids[slot.depth][slot.location.y][slot.location.x]
      ensures !InRange(grids, slot) ==> r == Empty
    {
      if slot.depth < |grids| && 0 <= slot.location.y < |grids[slot.depth]|
         && 0 <= slot.location.x < |grids[slot.depth][slot.location.y]|
      then grids[slot.depth][slot.location.y][slot.location.x]
      else Empty
    }

    /** `get_tiles_at`: one tile per layer, the one `get_tile_at` gives at that depth. */
    function GetTilesAt(location: IVec2): (r: seq<TileType>)
      reads this
      ensures |r| == GetTileCount()
      ensures forall d :: 0 <= d < |r| ==> r[d] == GetTileAt(TileLocation(location, d))
    {
      seq(|grids|, d requires 0 <= d < |grids| reads this =>
        if 0 <= location.y < |grids[d]| && 0 <= location.x < |grids[d][location.y]|
        then grids[d][location.y][location.x]
        else Empty)
    }

    /** `tiles_dirty`. */
    function TilesDirty(): (r: bool)
      reads this
      ensures r == tileContentsDirty
    {
      tileContentsDirty
    }

    /** `mark_tiles_not_dirty`: clears the dirty flag and nothing else. */
    method MarkTilesNotDirty()
      modifies this
      ensures !TilesDirty()
      ensures grids == old(grids) && gridSize == old(gridSize) && renderedGridSize == old(renderedGridSize)
    {
      tileContentsDirty := false;
    }
  }

  /**
   * For layers of a uniform size recorded without truncation, a location
   * holds a stored tile exactly when it lies inside the recorded size.
   */
  lemma InRangeOfGridSize(grids: seq<seq<seq<TileType>>>, size: IVec3, slot: TileLocation)
    requires |grids| > 0 && Uniform(grids, FirstLayerSize(grids).0, FirstLayerSize(grids).1)
    requires FirstLayerSize(grids).0 < 0x8000_0000 && FirstLayerSize(grids).1 < 0x8000_0000 && |grids| < 0x8000_0000
    requires size == IVec3(AsI32(FirstLayerSize(grids).0), AsI32(FirstLayerSize(grids).1), AsI32(|grids|))
    ensures InRange(grids, slot) <==>
              0 <= slot.location.x < size.x && 0 <= slot.location.y < size.y && slot.depth < size.z
  {
  }
}
