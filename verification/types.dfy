/** The app's shared vocabulary: the closed energy-level scale with its display
    table, the journal entry record, and the colour themes. */
module Types {
  import opened Wrappers

  /** The five energy levels, numbered 1 (drained) to 5 (peak). */
  datatype EnergyLevel = ExtremeLow | Low | Neutral | High | Peak {

    function Value(): (n: int)
      ensures 1 <= n <= 5
    {
      match this
      case ExtremeLow => 1
      case Low => 2
      case Neutral => 3
      case High => 4
      case Peak => 5
    }
  }

  /** The level with numeric value `n`, if there is one. */
  function LevelOf(n: int): (r: Option<EnergyLevel>)
    ensures r.Some? <==> 1 <= n <= 5
    ensures r.Some? ==> r.value.Value() == n
  {
    if n == 1 then Some(ExtremeLow)
    else if n == 2 then Some(Low)
    else if n == 3 then Some(Neutral)
    else if n == 4 then Some(High)
    else if n == 5 then Some(Peak)
    else None
  }

  /** The enum's values are exactly 1 to 5, each naming one level. */
  lemma LevelValuesRoundTrip(l: EnergyLevel, n: int)
    ensures LevelOf(l.Value()) == Some(l)
    ensures LevelOf(n).Some? ==> LevelOf(n).value.Value() == n
  {
  }

  /** A lower-case hexadecimal digit. */
  predicate IsHexDigit(c: char) {
    '0' <= c <= '9' || 'a' <= c <= 'f'
  }

  datatype EnergyMeta = EnergyMeta(emoji: string, name: string, color: string, bg: string)

  /** The display table: one entry per level, so looking a level up never fails. The
      colour is a `#rrggbb` hex colour and the background a light Tailwind
      `bg-<hue>-100` class. */
  function Meta(l: EnergyLevel): (m: EnergyMeta)
    ensures |m.color| == 7 && m.color[0] == '#'
    ensures forall i :: 1 <= i < 7 ==> IsHexDigit(m.color[i])
    ensures |m.bg| > 7 && m.bg[..3] == "bg-" && m.bg[|m.bg| - 4..] == "-100"
  {
    match l
    case ExtremeLow => EnergyMeta("😴", "Cạn kiệt", "#fca5a5", "bg-red-100")
    case Low => EnergyMeta("🥱", "Hơi mệt", "#fcd34d", "bg-yellow-100")
    case Neutral => EnergyMeta("😐", "Bình thường", "#93c5fd", "bg-blue-100")
    case High => EnergyMeta("😊", "Tốt nè", "#86efac", "bg-green-100")
    case Peak => EnergyMeta("🔥", "Rực rỡ", "#f9a8d4", "bg-pink-100")
  }

  /** No two levels share a colour or a label (`name`), so both identify the level. */
  lemma MetaDistinct(a: EnergyLevel, b: EnergyLevel)
    ensures Meta(a).color == Meta(b).color ==> a == b
    ensures Meta(a).name == Meta(b).name ==> a == b
  {
  }

  /** A journal entry as the components see it; `date` is meant to be `YYYY-MM-DD`. */
  datatype Entry = Entry(
    id: string,
    date: string,
    energy: EnergyLevel,
    content: string,
    image: Option<string>,
    tags: seq<string>,
    aiInsight: Option<string>)

  datatype Theme = Theme(id: string, name: string, main: string, light: string, hover: string)

  const Themes: seq<Theme> := [
    Theme("indigo", "Indigo", "#4f46e5", "#e0e7ff", "#4338ca"),
    Theme("emerald", "Emerald", "#059669", "#d1fae5", "#047857"),
    Theme("rose", "Rose", "#e11d48", "#ffe4e6", "#be123c"),
    Theme("amber", "Amber", "#d97706", "#fef3c7", "#b45309"),
    Theme("violet", "Violet", "#7c3aed", "#ede9fe", "#6d28d9")
  ]

  /** The theme table is non-empty and its ids are pairwise distinct, so `Themes[0]`
      exists as a default and an id names at most one theme. */
  lemma ThemesWellFormed()
    ensures |Themes| == 5
    ensures forall i, j :: 0 <= i < j < |Themes| ==> Themes[i].id != Themes[j].id
  {
  }
}
