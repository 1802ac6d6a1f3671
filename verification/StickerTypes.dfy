/** The sheet table and the default sticker list of types.ts: the five
    sheet sizes a sticker count selects (lines 81-91) and the generator of
    the default per-sticker configuration (lines 115-147). */
module StickerTypes {
  import opened Wrappers
  import opened JsText

  /** A sheet's grid and pixel size, as the sheet slicer receives it. */
  datatype SheetLayout = SheetLayout(rows: int, cols: int, width: int, height: int)

  /** One entry of the sheet table. */
  datatype SheetSpec = SheetSpec(width: int, height: int, cols: int, rows: int)

  /** STICKER_SPECS, keyed by the number of stickers on the sheet. */
  const StickerSpecs: map<int, SheetSpec> := map[
    8 := SheetSpec(1480, 640, 4, 2),
    16 := SheetSpec(1480, 1280, 4, 4),
    24 := SheetSpec(1480, 1920, 4, 6),
    32 := SheetSpec(1480, 2560, 4, 8),
    40 := SheetSpec(1850, 2560, 5, 8)
  ]

  /** Every cell of every sheet is 370 by 320 pixels, and a sheet holds as
      many cells as its key says. */
  predicate WellShaped(count: int, spec: SheetSpec) {
    spec.cols * spec.rows == count && spec.width == 370 * spec.cols && spec.height == 320 * spec.rows
  }

  /** getStickerSpec: the entry for the count, the 8-sticker entry for any
      count the table does not list. */
  function GetStickerSpec(count: int): (spec: SheetSpec)
    ensures count in StickerSpecs ==> spec == StickerSpecs[count]
    ensures count !in StickerSpecs ==> spec == StickerSpecs[8]
  {
    if count in StickerSpecs then StickerSpecs[count] else StickerSpecs[8]
  }

  /** The table is consistent: each entry has as many cells as its key and
      cells of 370 by 320 pixels. */
  lemma StickerSpecsWellShaped()
    ensures forall c :: c in StickerSpecs ==> WellShaped(c, StickerSpecs[c])
  {
    assert StickerSpecs.Keys == {8, 16, 24, 32, 40};
  }

  /** Whatever count is asked for, the sheet returned is well shaped; it
      holds exactly that many stickers when the count is listed, and 8
      otherwise. */
  lemma GetStickerSpecShape(count: int)
    ensures WellShaped(if count in StickerSpecs then count else 8, GetStickerSpec(count))
    ensures GetStickerSpec(count).cols * GetStickerSpec(count).rows == count <==> count in StickerSpecs
  {
    StickerSpecsWellShaped();
    assert StickerSpecs.Keys == {8, 16, 24, 32, 40};
  }

  /** StickerConfig. The Chinese description is optional in the record type. */
  datatype StickerConfig = StickerConfig(id: string, emotionPrompt: string, emotionPromptCN: Option<string>,
                                         text: string, showText: bool)

  /** One of the sixteen base expressions. */
  datatype BaseExpression = BaseExpression(text: string, promptCN: string, prompt: string)

  const Bases: seq<BaseExpression> := [
    BaseExpression("開心", "開心的笑，大大的笑容", "Happy, Joyful, Big Smile"),
    BaseExpression("難過", "難過哭泣，流眼淚", "Sad, Crying, Tears"),
    BaseExpression("森77", "生氣憤怒，冒火", "Angry, Furious, Burning"),
    BaseExpression("驚訝", "嚇一跳，震驚", "Surprised, Shocked"),
    BaseExpression("愛你", "愛心眼，雙手比愛心", "Love, Heart eyes, Hand heart"),
    BaseExpression("大笑", "捧腹大笑", "Laughing out loud"),
    BaseExpression("蛤?", "困惑，滿頭問號", "Confused, Question marks"),
    BaseExpression("帥", "戴墨鏡，耍酷", "Cool, Wearing Sunglasses"),
    BaseExpression("好的", "比OK手勢，比讚", "OK sign, Thumbs up"),
    BaseExpression("不要", "雙手打叉，拒絕", "No, Cross arms, Reject"),
    BaseExpression("謝謝", "鞠躬道謝", "Bowing, Thank you"),
    BaseExpression("晚安", "睡覺，流口水", "Sleeping, Zzz, Drooling"),
    BaseExpression("加油", "拿彩球加油", "Cheering, Holding Pom poms"),
    BaseExpression("累", "累趴在地上，融化", "Tired, Exhausted, Melting on floor"),
    BaseExpression("怕", "發抖，看到鬼", "Scared, Shaking, Ghost behind"),
    BaseExpression("無言", "無言，點點點", "Speechless, Dots")
  ]

  /** How many configurations get their text shown. */
  const TextShownCount: nat := 16

  /** The configuration at position i of the default list. */
  function DefaultConfig(i: nat): StickerConfig {
    var base := Bases[i % |Bases|];
    StickerConfig(NatToString(i + 1), base.prompt, Some(base.promptCN), base.text, i < TextShownCount)
  }

  /** The length `Array.from({ length: quantity })` gives an integer
      quantity: the quantity itself, or 0 for a negative one. */
  function ArrayLength(quantity: int): (n: nat)
    ensures quantity >= 0 ==> n == quantity
    ensures quantity < 0 ==> n == 0
  {
    if quantity > 0 then quantity else 0
  }

  /** generateDefaultConfigs. */
  function GenerateDefaultConfigs(quantity: int): (configs: seq<StickerConfig>)
    ensures |configs| == ArrayLength(quantity)
  {
    seq(ArrayLength(quantity), i requires 0 <= i => DefaultConfig(i))
  }

  /** The list has the requested length; the ids are the decimal numbers 1
      to n in order; entry i repeats the expression of base i mod 16; only
      the first sixteen show their text. */
  lemma DefaultConfigsContent(quantity: int)
    ensures var configs := GenerateDefaultConfigs(quantity);
            |configs| == ArrayLength(quantity) &&
            forall i :: 0 <= i < |configs| ==>
              configs[i].id == NatToString(i + 1) && DecimalValue(configs[i].id) == i + 1 &&
              configs[i].text == Bases[i % 16].text &&
              configs[i].emotionPrompt == Bases[i % 16].prompt &&
              configs[i].emotionPromptCN == Some(Bases[i % 16].promptCN) &&
              (configs[i].showText <==> i < 16)
  {
    var configs := GenerateDefaultConfigs(quantity);
    forall i | 0 <= i < |configs|
      ensures DecimalValue(configs[i].id) == i + 1
    {
      NatToStringRoundTrip(i + 1);
    }
  }

  /** No two configurations share an id. */
  lemma DefaultConfigIdsDistinct(quantity: int, i: nat, j: nat)
    requires i < j < ArrayLength(quantity)
    ensures GenerateDefaultConfigs(quantity)[i].id != GenerateDefaultConfigs(quantity)[j].id
  {
    if NatToString(i + 1) == NatToString(j + 1) {
      NatToStringInjective(i + 1, j + 1);
    }
  }

  /** A longer list starts with the shorter one: configurations do not
      depend on how many are asked for. */
  lemma DefaultConfigsPrefix(m: int, n: int)
    requires m <= n
    ensures GenerateDefaultConfigs(m) == GenerateDefaultConfigs(n)[..ArrayLength(m)]
  {
  }

  /** DEFAULT_STICKER_CONFIGS. */
  const DefaultStickerConfigs: seq<StickerConfig> := GenerateDefaultConfigs(8)

  /** The default list has eight configurations, with ids "1" to "8", all of
      them showing their text. */
  lemma DefaultStickerConfigsShape()
    ensures |DefaultStickerConfigs| == 8
    ensures forall i :: 0 <= i < 8 ==> DefaultStickerConfigs[i].showText &&
                                       DefaultStickerConfigs[i].id == [DigitChar(i + 1)]
  {
  }
}
