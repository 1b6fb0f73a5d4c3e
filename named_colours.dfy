/**
 * The colour-name tables of the colour class: the 147 SVG 1.0 colour names
 * (the CSS3 extended colour keywords) with their hex triplets, the reverse
 * table built from it by array_flip (where two names share a triplet the
 * later name wins), and the 16 HTML4 colour names keyed by hex triplet.
 *
 * Each table is a lookup that yields None for a key it does not hold. The
 * lookups dispatch on one character of the key first; the entries, their
 * values and their order are those of the source.
 */
module NamedColours {
  import opened Outcomes
  import opened PhpNumbers

  /** The hex triplet of an SVG colour name. */
  function SvgHex(key: string): Option<string>
  {
    if |key| == 0 then None
    else
      match key[0]
      case 'a' =>
        (match key
        case "aliceblue" => Some("#f0f8ff")
        case "antiquewhite" => Some("#faebd7")
        case "aqua" => Some("#00ffff")
        case "aquamarine" => Some("#7fffd4")
        case "azure" => Some("#f0ffff")
        case _ => None)
      case 'b' =>
        (match key
        case "beige" => Some("#f5f5dc")
        case "bisque" => Some("#ffe4c4")
        case "black" => Some("#000000")
        case "blanchedalmond" => Some("#ffebcd")
        case "blue" => Some("#0000ff")
        case "blueviolet" => Some("#8a2be2")
        case "brown" => Some("#a52a2a")
        case "burlywood" => Some("#deb887")
        case _ => None)
      case 'c' =>
        (match key
        case "cadetblue" => Some("#5f9ea0")
        case "chartreuse" => Some("#7fff00")
        case "chocolate" => Some("#d2691e")
        case "coral" => Some("#ff7f50")
        case "cornflowerblue" => Some("#6495ed")
        case "cornsilk" => Some("#fff8dc")
        case "crimson" => Some("#dc143c")
        case "cyan" => Some("#00ffff")
        case _ => None)
      case 'd' =>
        // Split on the second letter to keep the table proof small.
        if |key| > 1 && key[1] == 'a' then
          (match key
          case "darkblue" => Some("#00008b")
          case "darkcyan" => Some("#008b8b")
          case "darkgoldenrod" => Some("#b8860b")
          case "darkgray" => Some("#a9a9a9")
          case "darkgreen" => Some("#006400")
          case "darkgrey" => Some("#a9a9a9")
          case "darkkhaki" => Some("#bdb76b")
          case "darkmagenta" => Some("#8b008b")
          case "darkolivegreen" => Some("#556b2f")
          case "darkorange" => Some("#ff8c00")
          case "darkorchid" => Some("#9932cc")
          case "darkred" => Some("#8b0000")
          case "darksalmon" => Some("#e9967a")
          case "darkseagreen" => Some("#8fbc8f")
          case "darkslateblue" => Some("#483d8b")
          case "darkslategray" => Some("#2f4f4f")
          case "darkslategrey" => Some("#2f4f4f")
          case "darkturquoise" => Some("#00ced1")
          case "darkviolet" => Some("#9400d3")
          case _ => None)
        else
          (match key
          case "deeppink" => Some("#ff1493")
          case "deepskyblue" => Some("#00bfff")
          case "dimgray" => Some("#696969")
          case "dimgrey" => Some("#696969")
          case "dodgerblue" => Some("#1e90ff")
          case _ => None)
      case 'f' =>
        (match key
        case "firebrick" => Some("#b22222")
        case "floralwhite" => Some("#fffaf0")
        case "forestgreen" => Some("#228b22")
        case "fuchsia" => Some("#ff00ff")
        case _ => None)
      case 'g' =>
        (match key
        case "gainsboro" => Some("#dcdcdc")
        case "ghostwhite" => Some("#f8f8ff")
        case "gold" => Some("#ffd700")
        case "goldenrod" => Some("#daa520")
        case "gray" => Some("#808080")
        case "green" => Some("#008000")
        case "greenyellow" => Some("#adff2f")
        case "grey" => Some("#808080")
        case _ => None)
      case 'h' =>
        (match key
        case "honeydew" => Some("#f0fff0")
        case "hotpink" => Some("#ff69b4")
        case _ => None)
      case 'i' =>
        (match key
        case "indianred" => Some("#cd5c5c")
        case "indigo" => Some("#4b0082")
        case "ivory" => Some("#fffff0")
        case _ => None)
      case 'k' =>
        (match key
        case "khaki" => Some("#f0e68c")
        case _ => None)
      case 'l' =>
        (match key
        case "lavender" => Some("#e6e6fa")
        case "lavenderblush" => Some("#fff0f5")
        case "lawngreen" => Some("#7cfc00")
        case "lemonchiffon" => Some("#fffacd")
        case "lightblue" => Some("#add8e6")
        case "lightcoral" => Some("#f08080")
        case "lightcyan" => Some("#e0ffff")
        case "lightgoldenrodyellow" => Some("#fafad2")
        case "lightgray" => Some("#d3d3d3")
        case "lightgreen" => Some("#90ee90")
        case "lightgrey" => Some("#d3d3d3")
        case "lightpink" => Some("#ffb6c1")
        case "lightsalmon" => Some("#ffa07a")
        case "lightseagreen" => Some("#20b2aa")
        case "lightskyblue" => Some("#87cefa")
        case "lightslategray" => Some("#778899")
        case "lightslategrey" => Some("#778899")
        case "lightsteelblue" => Some("#b0c4de")
        case "lightyellow" => Some("#ffffe0")
        case "lime" => Some("#00ff00")
        case "limegreen" => Some("#32cd32")
        case "linen" => Some("#faf0e6")
        case _ => None)
      case 'm' =>
        (match key
        case "magenta" => Some("#ff00ff")
        case "maroon" => Some("#800000")
        case "mediumaquamarine" => Some("#66cdaa")
        case "mediumblue" => Some("#0000cd")
        case "mediumorchid" => Some("#ba55d3")
        case "mediumpurple" => Some("#9370db")
        case "mediumseagreen" => Some("#3cb371")
        case "mediumslateblue" => Some("#7b68ee")
        case "mediumspringgreen" => Some("#00fa9a")
        case "mediumturquoise" => Some("#48d1cc")
        case "mediumvioletred" => Some("#c71585")
        case "midnightblue" => Some("#191970")
        case "mintcream" => Some("#f5fffa")
        case "mistyrose" => Some("#ffe4e1")
        case "moccasin" => Some("#ffe4b5")
        case _ => None)
      case 'n' =>
        (match key
        case "navajowhite" => Some("#ffdead")
        case "navy" => Some("#000080")
        case _ => None)
      case 'o' =>
        (match key
        case "oldlace" => Some("#fdf5e6")
        case "olive" => Some("#808000")
        case "olivedrab" => Some("#6b8e23")
        case "orange" => Some("#ffa500")
        case "orangered" => Some("#ff4500")
        case "orchid" => Some("#da70d6")
        case _ => None)
      case 'p' =>
        (match key
        case "palegoldenrod" => Some("#eee8aa")
        case "palegreen" => Some("#98fb98")
        case "paleturquoise" => Some("#afeeee")
        case "palevioletred" => Some("#db7093")
        case "papayawhip" => Some("#ffefd5")
        case "peachpuff" => Some("#ffdab9")
        case "peru" => Some("#cd853f")
        case "pink" => Some("#ffc0cb")
        case "plum" => Some("#dda0dd")
        case "powderblue" => Some("#b0e0e6")
        case "purple" => Some("#800080")
        case _ => None)
      case 'r' =>
        (match key
        case "red" => Some("#ff0000")
        case "rosybrown" => Some("#bc8f8f")
        case "royalblue" => Some("#4169e1")
        case _ => None)
      case 's' =>
        (match key
        case "saddlebrown" => Some("#8b4513")
        case "salmon" => Some("#fa8072")
        case "sandybrown" => Some("#f4a460")
        case "seagreen" => Some("#2e8b57")
        case "seashell" => Some("#fff5ee")
        case "sienna" => Some("#a0522d")
        case "silver" => Some("#c0c0c0")
        case "skyblue" => Some("#87ceeb")
        case "slateblue" => Some("#6a5acd")
        case "slategray" => Some("#708090")
        case "slategrey" => Some("#708090")
        case "snow" => Some("#fffafa")
        case "springgreen" => Some("#00ff7f")
        case "steelblue" => Some("#4682b4")
        case _ => None)
      case 't' =>
        (match key
        case "tan" => Some("#d2b48c")
        case "teal" => Some("#008080")
        case "thistle" => Some("#d8bfd8")
        case "tomato" => Some("#ff6347")
        case "turquoise" => Some("#40e0d0")
        case _ => None)
      case 'v' =>
        (match key
        case "violet" => Some("#ee82ee")
        case _ => None)
      case 'w' =>
        (match key
        case "wheat" => Some("#f5deb3")
        case "white" => Some("#ffffff")
        case "whitesmoke" => Some("#f5f5f5")
        case _ => None)
      case 'y' =>
        (match key
        case "yellow" => Some("#ffff00")
        case "yellowgreen" => Some("#9acd32")
        case _ => None)
      case _ => None
  }

  /** The name array_flip assigns to a hex triplet of the SVG table. */
  function SvgName(key: string): Option<string>
  {
    if |key| < 2 then None
    else
      match key[1]
      case '0' =>
        (match key
        case "#000000" => Some("black")
        case "#000080" => Some("navy")
        case "#00008b" => Some("darkblue")
        case "#0000cd" => Some("mediumblue")
        case "#0000ff" => Some("blue")
        case "#006400" => Some("darkgreen")
        case "#008000" => Some("green")
        case "#008080" => Some("teal")
        case "#008b8b" => Some("darkcyan")
        case "#00bfff" => Some("deepskyblue")
        case "#00ced1" => Some("darkturquoise")
        case "#00fa9a" => Some("mediumspringgreen")
        case "#00ff00" => Some("lime")
        case "#00ff7f" => Some("springgreen")
        case "#00ffff" => Some("cyan")
        case _ => None)
      case '1' =>
        (match key
        case "#191970" => Some("midnightblue")
        case "#1e90ff" => Some("dodgerblue")
        case _ => None)
      case '2' =>
        (match key
        case "#20b2aa" => Some("lightseagreen")
        case "#228b22" => Some("forestgreen")
        case "#2e8b57" => Some("seagreen")
        case "#2f4f4f" => Some("darkslategrey")
        case _ => None)
      case '3' =>
        (match key
        case "#32cd32" => Some("limegreen")
        case "#3cb371" => Some("mediumseagreen")
        case _ => None)
      case '4' =>
        (match key
        case "#40e0d0" => Some("turquoise")
        case "#4169e1" => Some("royalblue")
        case "#4682b4" => Some("steelblue")
        case "#483d8b" => Some("darkslateblue")
        case "#48d1cc" => Some("mediumturquoise")
        case "#4b0082" => Some("indigo")
        case _ => None)
      case '5' =>
        (match key
        case "#556b2f" => Some("darkolivegreen")
        case "#5f9ea0" => Some("cadetblue")
        case _ => None)
      case '6' =>
        (match key
        case "#6495ed" => Some("cornflowerblue")
        case "#66cdaa" => Some("mediumaquamarine")
        case "#696969" => Some("dimgrey")
        case "#6a5acd" => Some("slateblue")
        case "#6b8e23" => Some("olivedrab")
        case _ => None)
      case '7' =>
        (match key
        case "#708090" => Some("slategrey")
        case "#778899" => Some("lightslategrey")
        case "#7b68ee" => Some("mediumslateblue")
        case "#7cfc00" => Some("lawngreen")
        case "#7fff00" => Some("chartreuse")
        case "#7fffd4" => Some("aquamarine")
        case _ => None)
      case '8' =>
        (match key
        case "#800000" => Some("maroon")
        case "#800080" => Some("purple")
        case "#808000" => Some("olive")
        case "#808080" => Some("grey")
        case "#87ceeb" => Some("skyblue")
        case "#87cefa" => Some("lightskyblue")
        case "#8a2be2" => Some("blueviolet")
        case "#8b0000" => Some("darkred")
        case "#8b008b" => Some("darkmagenta")
        case "#8b4513" => Some("saddlebrown")
        case "#8fbc8f" => Some("darkseagreen")
        case _ => None)
      case '9' =>
        (match key
        case "#90ee90" => Some("lightgreen")
        case "#9370db" => Some("mediumpurple")
        case "#9400d3" => Some("darkviolet")
        case "#98fb98" => Some("palegreen")
        case "#9932cc" => Some("darkorchid")
        case "#9acd32" => Some("yellowgreen")
        case _ => None)
      case 'a' =>
        (match key
        case "#a0522d" => Some("sienna")
        case "#a52a2a" => Some("brown")
        case "#a9a9a9" => Some("darkgrey")
        case "#add8e6" => Some("lightblue")
        case "#adff2f" => Some("greenyellow")
        case "#afeeee" => Some("paleturquoise")
        case _ => None)
      case 'b' =>
        (match key
        case "#b0c4de" => Some("lightsteelblue")
        case "#b0e0e6" => Some("powderblue")
        case "#b22222" => Some("firebrick")
        case "#b8860b" => Some("darkgoldenrod")
        case "#ba55d3" => Some("mediumorchid")
        case "#bc8f8f" => Some("rosybrown")
        case "#bdb76b" => Some("darkkhaki")
        case _ => None)
      case 'c' =>
        (match key
        case "#c0c0c0" => Some("silver")
        case "#c71585" => Some("mediumvioletred")
        case "#cd5c5c" => Some("indianred")
        case "#cd853f" => Some("peru")
        case _ => None)
      case 'd' =>
        (match key
        case "#d2691e" => Some("chocolate")
        case "#d2b48c" => Some("tan")
        case "#d3d3d3" => Some("lightgrey")
        case "#d8bfd8" => Some("thistle")
        case "#da70d6" => Some("orchid")
        case "#daa520" => Some("goldenrod")
        case "#db7093" => Some("palevioletred")
        case "#dc143c" => Some("crimson")
        case "#dcdcdc" => Some("gainsboro")
        case "#dda0dd" => Some("plum")
        case "#deb887" => Some("burlywood")
        case _ => None)
      case 'e' =>
        (match key
        case "#e0ffff" => Some("lightcyan")
        case "#e6e6fa" => Some("lavender")
        case "#e9967a" => Some("darksalmon")
        case "#ee82ee" => Some("violet")
        case "#eee8aa" => Some("palegoldenrod")
        case _ => None)
      case 'f' =>
        (match key
        case "#f08080" => Some("lightcoral")
        case "#f0e68c" => Some("khaki")
        case "#f0f8ff" => Some("aliceblue")
        case "#f0fff0" => Some("honeydew")
        case "#f0ffff" => Some("azure")
        case "#f4a460" => Some("sandybrown")
        case "#f5deb3" => Some("wheat")
        case "#f5f5dc" => Some("beige")
        case "#f5f5f5" => Some("whitesmoke")
        case "#f5fffa" => Some("mintcream")
        case "#f8f8ff" => Some("ghostwhite")
        case "#fa8072" => Some("salmon")
        case "#faebd7" => Some("antiquewhite")
        case "#faf0e6" => Some("linen")
        case "#fafad2" => Some("lightgoldenrodyellow")
        case "#fdf5e6" => Some("oldlace")
        case "#ff0000" => Some("red")
        case "#ff00ff" => Some("magenta")
        case "#ff1493" => Some("deeppink")
        case "#ff4500" => Some("orangered")
        case "#ff6347" => Some("tomato")
        case "#ff69b4" => Some("hotpink")
        case "#ff7f50" => Some("coral")
        case "#ff8c00" => Some("darkorange")
        case "#ffa07a" => Some("lightsalmon")
        case "#ffa500" => Some("orange")
        case "#ffb6c1" => Some("lightpink")
        case "#ffc0cb" => Some("pink")
        case "#ffd700" => Some("gold")
        case "#ffdab9" => Some("peachpuff")
        case "#ffdead" => Some("navajowhite")
        case "#ffe4b5" => Some("moccasin")
        case "#ffe4c4" => Some("bisque")
        case "#ffe4e1" => Some("mistyrose")
        case "#ffebcd" => Some("blanchedalmond")
        case "#ffefd5" => Some("papayawhip")
        case "#fff0f5" => Some("lavenderblush")
        case "#fff5ee" => Some("seashell")
        case "#fff8dc" => Some("cornsilk")
        case "#fffacd" => Some("lemonchiffon")
        case "#fffaf0" => Some("floralwhite")
        case "#fffafa" => Some("snow")
        case "#ffff00" => Some("yellow")
        case "#ffffe0" => Some("lightyellow")
        case "#fffff0" => Some("ivory")
        case "#ffffff" => Some("white")
        case _ => None)
      case _ => None
  }

  /** The HTML4 name of a hex triplet. */
  function Html4Name(key: string): Option<string>
  {
    match key
    case "#000000" => Some("black")
    case "#000080" => Some("navy")
    case "#0000ff" => Some("blue")
    case "#008000" => Some("green")
    case "#008080" => Some("teal")
    case "#00ff00" => Some("lime")
    case "#00ffff" => Some("aqua")
    case "#800000" => Some("maroon")
    case "#800080" => Some("purple")
    case "#808000" => Some("olive")
    case "#808080" => Some("gray")
    case "#c0c0c0" => Some("silver")
    case "#ff0000" => Some("red")
    case "#ff00ff" => Some("fuchsia")
    case "#ffff00" => Some("yellow")
    case "#ffffff" => Some("white")
    case _ => None
  }

  /** `#` followed by six lower-case hexadecimal digits. */
  predicate IsHexTriplet(t: string) {
    |t| == 7 && t[0] == '#' && forall i | 1 <= i < 7 :: IsHexDigit(t[i])
  }

  /** No SVG name begins with `#`, so a hex triplet is never looked up as a name. */
  lemma NoNameIsHex(key: string)
    requires |key| > 0 && key[0] == '#'
    ensures SvgHex(key) == None
  {
  }

  /** Every SVG name stands for a well-formed hex triplet. */
  lemma SvgHexIsTriplet(key: string)
    requires SvgHex(key).Some?
    ensures IsHexTriplet(SvgHex(key).value)
  {
    match key[0]
    case 'a' => TripletsUnderA(key);
    case 'b' => TripletsUnderB(key);
    case 'c' => TripletsUnderC(key);
    case 'd' => TripletsUnderD(key);
    case 'f' => TripletsUnderF(key);
    case 'g' => TripletsUnderG(key);
    case 'h' => TripletsUnderH(key);
    case 'i' => TripletsUnderI(key);
    case 'k' => TripletsUnderK(key);
    case 'l' => TripletsUnderL(key);
    case 'm' => TripletsUnderM(key);
    case 'n' => TripletsUnderN(key);
    case 'o' => TripletsUnderO(key);
    case 'p' => TripletsUnderP(key);
    case 'r' => TripletsUnderR(key);
    case 's' => TripletsUnderS(key);
    case 't' => TripletsUnderT(key);
    case 'v' => TripletsUnderV(key);
    case 'w' => TripletsUnderW(key);
    case 'y' => TripletsUnderY(key);
    case _ =>
  }

  // The table checked one initial letter at a time.

  lemma TripletsUnderA(key: string)
    requires |key| > 0 && key[0] == 'a' && SvgHex(key).Some?
    ensures IsHexTriplet(SvgHex(key).value)
  {
  }

  lemma TripletsUnderB(key: string)
    requires |key| > 0 && key[0] == 'b' && SvgHex(key).Some?
    ensures IsHexTriplet(SvgHex(key).value)
  {
  }

  lemma TripletsUnderC(key: string)
    requires |key| > 0 && key[0] == 'c' && SvgHex(key).Some?
    ensures IsHexTriplet(SvgHex(key).value)
  {
  }

  lemma TripletsUnderD(key: string)
    requires |key| > 0 && key[0] == 'd' && SvgHex(key).Some?
    ensures IsHexTriplet(SvgHex(key).value)
  {
    if |key| > 1 && key[1] == 'a' {
      TripletsUnderDark(key);
    }
  }

  lemma TripletsUnderDark(key: string)
    requires |key| > 1 && key[0] == 'd' && key[1] == 'a' && SvgHex(key).Some?
    ensures IsHexTriplet(SvgHex(key).value)
  {
  }

  lemma TripletsUnderF(key: string)
    requires |key| > 0 && key[0] == 'f' && SvgHex(key).Some?
    ensures IsHexTriplet(SvgHex(key).value)
  {
  }

  lemma TripletsUnderG(key: string)
    requires |key| > 0 && key[0] == 'g' && SvgHex(key).Some?
    ensures IsHexTriplet(SvgHex(key).value)
  {
  }

  lemma TripletsUnderH(key: string)
    requires |key| > 0 && key[0] == 'h' && SvgHex(key).Some?
    ensures IsHexTriplet(SvgHex(key).value)
  {
  }

  lemma TripletsUnderI(key: string)
    requires |key| > 0 && key[0] == 'i' && SvgHex(key).Some?
    ensures IsHexTriplet(SvgHex(key).value)
  {
  }

  lemma TripletsUnderK(key: string)
    requires |key| > 0 && key[0] == 'k' && SvgHex(key).Some?
    ensures IsHexTriplet(SvgHex(key).value)
  {
  }

  lemma TripletsUnderL(key: string)
    requires |key| > 0 && key[0] == 'l' && SvgHex(key).Some?
    ensures IsHexTriplet(SvgHex(key).value)
  {
  }

  lemma TripletsUnderM(key: string)
    requires |key| > 0 && key[0] == 'm' && SvgHex(key).Some?
    ensures IsHexTriplet(SvgHex(key).value)
  {
  }

  lemma TripletsUnderN(key: string)
    requires |key| > 0 && key[0] == 'n' && SvgHex(key).Some?
    ensures IsHexTriplet(SvgHex(key).value)
  {
  }

  lemma TripletsUnderO(key: string)
    requires |key| > 0 && key[0] == 'o' && SvgHex(key).Some?
    ensures IsHexTriplet(SvgHex(key).value)
  {
  }

  lemma TripletsUnderP(key: string)
    requires |key| > 0 && key[0] == 'p' && SvgHex(key).Some?
    ensures IsHexTriplet(SvgHex(key).value)
  {
  }

  lemma TripletsUnderR(key: string)
    requires |key| > 0 && key[0] == 'r' && SvgHex(key).Some?
    ensures IsHexTriplet(SvgHex(key).value)
  {
  }

  lemma TripletsUnderS(key: string)
    requires |key| > 0 && key[0] == 's' && SvgHex(key).Some?
    ensures IsHexTriplet(SvgHex(key).value)
  {
  }

  lemma TripletsUnderT(key: string)
    requires |key| > 0 && key[0] == 't' && SvgHex(key).Some?
    ensures IsHexTriplet(SvgHex(key).value)
  {
  }

  lemma TripletsUnderV(key: string)
    requires |key| > 0 && key[0] == 'v' && SvgHex(key).Some?
    ensures IsHexTriplet(SvgHex(key).value)
  {
  }

  lemma TripletsUnderW(key: string)
    requires |key| > 0 && key[0] == 'w' && SvgHex(key).Some?
    ensures IsHexTriplet(SvgHex(key).value)
  {
  }

  lemma TripletsUnderY(key: string)
    requires |key| > 0 && key[0] == 'y' && SvgHex(key).Some?
    ensures IsHexTriplet(SvgHex(key).value)
  {
  }

  /** Every HTML4 name is also an SVG name, for the same triplet. */
  lemma Html4NamesAreSvgNames(key: string)
    requires Html4Name(key).Some?
    ensures SvgHex(Html4Name(key).value) == Some(key)
  {
  }
}
