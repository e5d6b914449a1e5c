/** The static data the generator reads: the book-abbreviation table and the shape of the verse dataset. */
module Bible {
  import opened Wrappers

  /**
   * The abbreviation table: the canonical book name for an exact abbreviation,
   * `None` for every other string (already-full names, unknown names, other spellings).
   */
  function Abbreviation(name: string): Option<string> {
    match name
    case "창" => Some("창세기")
    case "출" => Some("출애굽기")
    case "레" => Some("레위기")
    case "민" => Some("민수기")
    case "신" => Some("신명기")
    case "수" => Some("여호수아")
    case "삿" => Some("사사기")
    case "룻" => Some("룻기")
    case "삼상" => Some("사무엘상")
    case "삼하" => Some("사무엘하")
    case "왕상" => Some("열왕기상")
    case "왕하" => Some("열왕기하")
    case "대상" => Some("역대상")
    case "대하" => Some("역대하")
    case "스" => Some("에스라")
    case "느" => Some("느헤미야")
    case "에" => Some("에스더")
    case "욥" => Some("욥기")
    case "시" => Some("시편")
    case "잠" => Some("잠언")
    case "전" => Some("전도서")
    case "아" => Some("아가")
    case "사" => Some("이사야")
    case "렘" => Some("예레미야")
    case "애" => Some("예레미야애가")
    case "겔" => Some("에스겔")
    case "단" => Some("다니엘")
    case "호" => Some("호세아")
    case "욜" => Some("요엘")
    case "암" => Some("아모스")
    case "옵" => Some("오바댜")
    case "욘" => Some("요나")
    case "미" => Some("미가")
    case "나" => Some("나훔")
    case "합" => Some("하박국")
    case "습" => Some("스바냐")
    case "학" => Some("학개")
    case "슥" => Some("스가랴")
    case "말" => Some("말라기")
    case "마" => Some("마태복음")
    case "막" => Some("마가복음")
    case "눅" => Some("누가복음")
    case "요" => Some("요한복음")
    case "행" => Some("사도행전")
    case "롬" => Some("로마서")
    case "고전" => Some("고린도전서")
    case "고후" => Some("고린도후서")
    case "갈" => Some("갈라디아서")
    case "엡" => Some("에베소서")
    case "빌" => Some("빌립보서")
    case "골" => Some("골로새서")
    case "살전" => Some("데살로니가전서")
    case "살후" => Some("데살로니가후서")
    case "딤전" => Some("디모데전서")
    case "딤후" => Some("디모데후서")
    case "딛" => Some("디도서")
    case "몬" => Some("빌레몬서")
    case "히" => Some("히브리서")
    case "약" => Some("야고보서")
    case "벧전" => Some("베드로전서")
    case "벧후" => Some("베드로후서")
    case "요일" => Some("요한1서")
    case "요이" => Some("요한2서")
    case "요삼" => Some("요한3서")
    case "유" => Some("유다서")
    case "계" => Some("요한계시록")
    case _ => None
  }

  /** The one translation the lookup ever reads, whatever translation the caller names. */
  const Translation: string := "개역개정"

  /** translation -> book -> chapter (decimal string) -> verse (decimal string) -> verse text. */
  type Dataset = map<string, map<string, map<string, map<string, string>>>>

  /**
   * A book name as the parser keeps it: the canonical name for an exact abbreviation,
   * otherwise unchanged. The result is never itself an abbreviation.
   */
  function Resolve(name: string): (r: string)
    ensures r == name || Abbreviation(name) == Some(r)
    ensures Abbreviation(r).None?
  {
    match Abbreviation(name)
    case Some(full) => CanonicalNotAbbreviation(name); full
    case None => name
  }

  /** Every abbreviation is one syllable, or two where the second marks a numbered book. */
  predicate AbbreviationForm(s: string) {
    |s| == 1 || (|s| == 2 && s[1] in {'상', '하', '전', '후', '일', '이', '삼'})
  }

  lemma AbbreviationsHaveForm(name: string)
    requires Abbreviation(name).Some?
    ensures AbbreviationForm(name)
  {
  }

  /** Every canonical name is three syllables or more, or two ending otherwise than an abbreviation does. */
  lemma CanonicalNamesHaveNoForm(name: string)
    requires Abbreviation(name).Some?
    ensures !AbbreviationForm(Abbreviation(name).value)
  {
  }

  /** No canonical name is itself an abbreviation. */
  lemma CanonicalNotAbbreviation(name: string)
    requires Abbreviation(name).Some?
    ensures Abbreviation(Abbreviation(name).value).None?
  {
    var full := Abbreviation(name).value;
    CanonicalNamesHaveNoForm(name);
    if Abbreviation(full).Some? {
      AbbreviationsHaveForm(full);
    }
  }

  /** Resolving twice changes nothing, and an abbreviation always resolves to a non-abbreviation. */
  lemma ResolveIdempotent(name: string)
    ensures Resolve(Resolve(name)) == Resolve(name)
    ensures Abbreviation(name).Some? ==> Abbreviation(Resolve(name)).None?
  {
  }

  /** Resolution is an exact match: the abbreviation and the full name give the same book, other spellings pass through. */
  lemma ResolveExamples()
    ensures Resolve("창") == "창세기" && Resolve("창세기") == "창세기"
    ensures Resolve("왕상") == "열왕기상" && Resolve(" 창") == " 창" && Resolve("Gen") == "Gen"
  {
  }
}
