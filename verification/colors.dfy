/** RGB colours as the textures produce them. */
module Colors {
  datatype Color = Color(r: real, g: real, b: real)

  /** The colour with all three channels equal to `v` (`Color(v)` in the renderer). */
  function Gray(v: real): Color { Color(v, v, v) }
}
