/** The translation tables that `init_scan_code` fills in (student-distrib/scan_code.c). */
module Scancodes {
  import opened Bytes
  import opened Tty

  function At(s: string, i: nat): byte
    requires i < |s|
  {
    var c := s[i] as int;
    if c < 256 then c else NUL
  }

  function ScanChar(k: nat): byte {
    if 2 <= k <= 13 then At("1234567890-=", k - 2)
    else if k == 15 then 9
    else if 16 <= k <= 27 then At("qwertyuiop[]", k - 16)
    else if k == 28 || k == 96 then NEWLINE
    else if 30 <= k <= 41 then At("asdfghjkl;'`", k - 30)
    else if 43 <= k <= 53 then At("\\zxcvbnm,./", k - 43)
    else if k == 55 then 42
    else if k == 57 then SPACE
    else if 71 <= k <= 82 then At("789-456+1230", k - 71)
    else NUL
  }

  function ShiftChar(k: nat): byte {
    if 2 <= k <= 13 then At("!@#$%^&*()_+", k - 2)
    else if 16 <= k <= 27 then At("QWERTYUIOP{}", k - 16)
    else if 30 <= k <= 41 then At("ASDFGHJKL:\"~", k - 30)
    else if 43 <= k <= 53 then At("|ZXCVBNM<>?", k - 43)
    else NUL
  }

  function Standard(): (km: Keymap)
    ensures km.Valid()
  {
    Keymap(seq(255, i requires 0 <= i => ScanChar(i)), seq(80, i requires 0 <= i => ShiftChar(i)))
  }

  predicate IsLetter(c: byte) { 97 <= c <= 122 }

  lemma TopRow(i: nat)
    requires i < |"qwertyuiop[]"| && IsLetter(At("qwertyuiop[]", i))
    ensures At("QWERTYUIOP{}", i) == At("qwertyuiop[]", i) - 32
  {
  }

  lemma HomeRow(i: nat)
    requires i < |"asdfghjkl;'`"| && IsLetter(At("asdfghjkl;'`", i))
    ensures At("ASDFGHJKL:\"~", i) == At("asdfghjkl;'`", i) - 32
  {
  }

  lemma BottomRow(i: nat)
    requires i < |"\\zxcvbnm,./"| && IsLetter(At("\\zxcvbnm,./", i))
    ensures At("|ZXCVBNM<>?", i) == At("\\zxcvbnm,./", i) - 32
  {
  }

  lemma OtherKeys(k: nat)
    requires !(16 <= k <= 27) && !(30 <= k <= 41) && !(43 <= k <= 53)
    ensures !IsLetter(ScanChar(k))
  {
  }

  /** The two tables agree: a letter key's shifted character is its capital. */
  lemma LettersShift(k: nat)
    requires IsLetter(ScanChar(k))
    ensures k < 80 && ShiftChar(k) == ScanChar(k) - 32
  {
    if 16 <= k <= 27 {
      TopRow(k - 16);
    } else if 30 <= k <= 41 {
      HomeRow(k - 30);
    } else if 43 <= k <= 53 {
      BottomRow(k - 43);
    } else {
      OtherKeys(k);
    }
  }

  /** A key that has a character types a NUL exactly when Shift turns it into one that has none: not Enter,
      and nothing in the shift table. */
  lemma TypesNulIff(ctl: Control, code: byte, stray: byte)
    requires ctl.Valid() && code < 80 && ScanChar(code) != NUL
    ensures CharMatch(Standard(), ctl, code, stray) == NUL <==> ctl.Shift() && code != ENTER && ShiftChar(code) == NUL
  {
    if IsLetter(ScanChar(code)) {
      LettersShift(code);
    }
  }

  /** Shift with the space bar is such a key. */
  lemma ShiftSpaceTypesNul(ctl: Control, stray: byte)
    requires ctl.Valid()
    ensures ctl.Shift() ==> CharMatch(Standard(), ctl, 57, stray) == NUL
    ensures !ctl.Shift() ==> CharMatch(Standard(), ctl, 57, stray) == SPACE
  {
  }

  /** With the standard tables a letter key types a capital exactly when one of Caps Lock and Shift is on and
      the other is not; on every other key Caps Lock makes no difference. */
  lemma LetterCase(ctl: Control, code: byte, stray: byte)
    requires ctl.Valid() && code < KEYS
    ensures var r := CharMatch(Standard(), ctl, code, stray);
            && (IsLetter(ScanChar(code)) ==> r == ScanChar(code) - if ctl.caps != ctl.Shift() then 32 else 0)
            && (!IsLetter(ScanChar(code)) ==> r == CharMatch(Standard(), ctl.(caps := !ctl.caps), code, stray))
  {
    if IsLetter(ScanChar(code)) {
      LettersShift(code);
    }
  }
}
