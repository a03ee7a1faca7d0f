/** `getColor`: a cell's intensity level picks one of five caller-supplied colours. */
module Colors {
  import opened Types

  const Transparent: string := "transparent"

  /** The colour table in level order: entry n is the colour for level n. */
  function Palette(colors: CellColors): (p: seq<string>)
    ensures |p| == 5
  {
    [colors.level0, colors.level1, colors.level2, colors.level3, colors.level4]
  }

  /** Levels 0 to 4 select their table entry; every other level falls back to transparent. */
  function GetColor(level: int, colors: CellColors): (color: string)
    ensures 0 <= level < 5 ==> color == Palette(colors)[level]
    ensures !(0 <= level < 5) ==> color == Transparent
  {
    match level
    case 0 => colors.level0
    case 1 => colors.level1
    case 2 => colors.level2
    case 3 => colors.level3
    case 4 => colors.level4
    case _ => Transparent
  }
}
