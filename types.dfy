/** Value types shared by the gallery's interaction engine, its shader model and its atlas builder. */
module GalleryTypes {

  datatype Option<+T> = None | Some(value: T)

  /** An ordered pair of reals (a THREE.Vector2): screen pixels, normalised device
      coordinates, world coordinates, pan offsets. Always copied, never shared. */
  datatype Vec2 = Vec2(x: real, y: real)
  {
    function Plus(v: Vec2): Vec2 { Vec2(x + v.x, y + v.y) }
    function Minus(v: Vec2): Vec2 { Vec2(x - v.x, y - v.y) }
    function Scale(k: real): Vec2 { Vec2(k * x, k * y) }
  }

  /** The address of one tile of the unbounded grid: the floor, per axis, of a world
      coordinate divided by the cell size. */
  datatype CellId = CellId(x: int, y: int)

  /** The two copies of the engine: the standalone component (components/Gallery.tsx) and
      its embeddable twin (framer/GalleryComponent.tsx). */
  datatype Variant = Standalone | Framer

  /** One catalog entry, with the fields the engine reads: the caption parts and the
      optional looping video. */
  datatype MediaItem = MediaItem(title: string, year: int, image: string, video: Option<string>)
}
