/** The analyzer's fixed tables (analyzer.js:9-61) and the five-slot tuple every
    splitting stage returns. Non-ASCII glyphs are written as escapes; the comment
    beside each table names the glyphs in the order of the source. */
module Tables {

  import opened Wrappers

  /** `MINIMUM_TAG_SHARE = 0.6` as the exact fraction 3/5: a share v/t exceeds it
      iff 5·v > 3·t. */
  const SHARE_NUMERATOR: nat := 3
  const SHARE_DENOMINATOR: nat := 5

  predicate ExceedsShare(votes: nat, total: nat) {
    SHARE_DENOMINATOR * votes > SHARE_NUMERATOR * total
  }

  /** `( [ { ༼ | ʕ ⁽ ᶘ ˁ 〳 ₍ ꒰ ⌈ U Ｕ ∪ ⎩ ╏ ᘳ ། Ꮚ （` */
  const LEFT_SIDES: string :=
    "([{\U{0F3C}|\U{0295}\U{207D}\U{1D98}\U{02C1}\U{3033}\U{208D}\U{A4B0}\U{2308}U\U{FF35}\U{222A}\U{23A9}\U{254F}\U{1633}\U{0F0D}\U{13CA}\U{FF08}"

  /** `) ] } ༽ | ʔ ⁾ ᶅ ˀ 〵 ₎ ꒱ ⌉ U Ｕ ∪ ⎭ ╏ ᘰ ། Ꮚ ）` */
  const RIGHT_SIDES: string :=
    ")]}\U{0F3D}|\U{0294}\U{207E}\U{1D85}\U{02C0}\U{3035}\U{208E}\U{A4B1}\U{2309}U\U{FF35}\U{222A}\U{23AD}\U{254F}\U{1630}\U{0F0D}\U{13CA}\U{FF09}"

  /** `ツ ᐛ ᐖ ∵ Ö ⌓` and a lone combining diaeresis: glyphs that are a whole face. */
  const SINGLE_CHAR_FACES: string := "\U{30C4}\U{141B}\U{1416}\U{2235}\U{00D6}\U{2313}\U{0308}"

  /** `MIRRORED_EYES[c]`: accent and bracket glyphs that pair with their mirror
      image as eyes, `None` where the object has no such key. The source object
      lists the combining acute/grave entries and the arrowhead entries twice,
      with the same values both times, so one case each is the same object. */
  function MirroredEyes(c: char): Option<char> {
    match c
    case '\U{0301}' => Some('\U{0300}')   // combining acute -> combining grave
    case '\U{0300}' => Some('\U{0301}')
    case '\U{02CA}' => Some('\U{02CB}')   // ˊ -> ˋ
    case '\U{02CB}' => Some('\U{02CA}')
    case '\U{00B4}' => Some('\U{FF40}')   // ´ -> ｀
    case '\U{FF40}' => Some('\U{00B4}')
    case '\U{1DC4}' => Some('\U{1DC5}')   // combining macron-acute -> grave-macron
    case '\U{1DC5}' => Some('\U{1DC4}')
    case '\U{02C3}' => Some('\U{02C2}')   // ˃ -> ˂
    case '\U{02C2}' => Some('\U{02C3}')
    case '\U{00F3}' => Some('\U{00F2}')   // ó -> ò
    case '\U{00F2}' => Some('\U{00F3}')
    case '<' => Some('>')
    case '>' => Some('<')
    case '\U{02D2}' => Some('\U{02D3}')   // ˒ -> ˓
    case '\U{02D3}' => Some('\U{02D2}')
    case '\U{2282}' => Some('\U{2283}')   // ⊂ -> ⊃
    case '\U{2283}' => Some('\U{2282}')
    case '\U{2570}' => Some('\U{256F}')   // ╰ -> ╯
    case '\U{256F}' => Some('\U{2570}')
    case _ => None
  }

  /** Code units whose presence makes the analyzer skip a moji. */
  const BAD_CHARS: seq<int> := [
    811, 860, 865, 2636, 3642, 3665, 4349, 8408, 8409, 8807,
    9678, 9770, 9774, 10047, 11193, 58164, 59132, 65417, 65507, 65533
  ]

  /** The mirror relation is symmetric: every glyph's image maps back to it. */
  lemma MirroredEyesSymmetric(c: char)
    ensures MirroredEyes(c).Some? ==> MirroredEyes(MirroredEyes(c).value) == Some(c)
    ensures MirroredEyes(c) != Some(c)
  {
  }

  /** The two side tables are parallel: same length, so a pair is valid when
      both glyphs stand at the same index. */
  lemma SideTablesParallel()
    ensures |LEFT_SIDES| == |RIGHT_SIDES| == 22
  {
  }

  /** A five-slot split `[outerLeft, left, centre, right, outerRight]`: at the top
      level outside/side/middle/side/outside, then outside/arm/face/arm/outside,
      then inside/eye/mouth/eye/inside. */
  datatype Split5 = Split5(outerLeft: string, left: string, centre: string, right: string, outerRight: string)
  {
    function Concat(): string {
      outerLeft + left + centre + right + outerRight
    }
  }

  /** The stored key of a paired part, `left + '%' + right`. */
  function Key(left: string, right: string): (k: string)
    ensures |k| == |left| + 1 + |right| && k[|left|] == '%'
    ensures k[..|left|] == left && k[|left| + 1..] == right
  {
    left + "%" + right
  }
}
