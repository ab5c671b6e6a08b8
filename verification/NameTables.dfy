/** The constant tables of the name coder (js/src/compress-name.ts, lines 7-55). */
module NameTables {

  /** Character code of each symbol; symbol 0 is the terminator. */
  const SYMBOL_TO_CHAR: seq<nat> := [
    0, 101, 97, 105, 111, 116, 110, 114, 115,
    108, 99, 117, 104, 100, 112, 109, 121, 103,
    98, 102, 119, 118, 107, 122, 120, 113, 106
  ]

  /** Symbols of the codes 64..90 and 96..122: both cases of the alphabet. */
  const LETTER_SYMBOLS: seq<nat> := [
    0, 2, 18, 10, 13, 1, 19, 17, 12, 3, 26, 22, 9, 15, 6, 4, 14, 25, 7, 8, 5, 11, 21, 20, 24, 16, 23
  ]

  /** The terminator and the 26 letters. */
  type Symbol = c: nat | c < 27

  /** The symbol of a character code; 0 means that it cannot be compressed.
      Codes past the end of the source's table read as undefined there, which
      its test for a missing symbol treats as 0. */
  function SymbolOf(c: int): Symbol
  {
    if 48 <= c <= 57 then c - 47
    else if 64 <= c <= 90 then LETTER_SYMBOLS[c - 64]
    else if c == 95 then 25
    else if 96 <= c <= 122 then LETTER_SYMBOLS[c - 96]
    else 0
  }

  /** The length of the source's character table: reading beyond it yields undefined. */
  const CHAR_TABLE_SIZE := 251

  /** Every letter is the character of its symbol, and every symbol has a letter. */
  lemma LettersAndSymbols()
    ensures forall c :: 97 <= c <= 122 ==> 1 <= SymbolOf(c) <= 26 && SYMBOL_TO_CHAR[SymbolOf(c)] == c
    ensures forall k :: 1 <= k <= 26 ==> 97 <= SYMBOL_TO_CHAR[k] <= 122 && SymbolOf(SYMBOL_TO_CHAR[k]) == k
  {
    LettersHaveSymbols();
    SymbolsHaveLetters();
  }

  lemma LettersHaveSymbols()
    ensures forall c :: 97 <= c <= 122 ==> 1 <= SymbolOf(c) <= 26 && SYMBOL_TO_CHAR[SymbolOf(c)] == c
  {
  }

  lemma SymbolsHaveLetters()
    ensures forall k :: 1 <= k <= 26 ==> 97 <= SYMBOL_TO_CHAR[k] <= 122 && SymbolOf(SYMBOL_TO_CHAR[k]) == k
  {
  }

  const ROW_WIDTH := 28
  const TOTAL := 32767

  /** A cumulative frequency row: from 0 up to 32767 without decreasing. */
  ghost predicate ValidRow(r: seq<nat>) {
    && |r| == ROW_WIDTH && r[0] == 0 && r[27] == TOTAL
    && forall i, j :: 0 <= i <= j < ROW_WIDTH ==> r[i] <= r[j]
  }

  /** One row for each preceding symbol; after a letter the terminator has positive width. */
  ghost predicate ValidTable(cf: seq<seq<nat>>) {
    && |cf| == 27
    && (forall k :: 0 <= k < 27 ==> ValidRow(cf[k]))
    && (forall k :: 1 <= k < 27 ==> cf[k][1] > 0)
  }

  const ROW0: seq<nat> := [0, 0, 1956, 4146, 6063, 7423, 9305, 10276, 11226, 13687, 14907, 16131, 17056, 18369, 19922, 21644, 23210, 24604, 25065, 26398, 28475, 30408, 31395, 31725, 32367, 32402, 32623, 32767]
  const ROW1: seq<nat> := [0, 4880, 5243, 6669, 7714, 8472, 9634, 11619, 15233, 16738, 18031, 18650, 18993, 20913, 22653, 25217, 25802, 26404, 26589, 28244, 29312, 31398, 31845, 32080, 32183, 32478, 32695, 32767]
  const ROW2: seq<nat> := [0, 1737, 2901, 3020, 3666, 3734, 8543, 12634, 15523, 17208, 21367, 22949, 23407, 24602, 25562, 26470, 28001, 28323, 29045, 30727, 31040, 31251, 32084, 32387, 32496, 32598, 32745, 32767]
  const ROW3: seq<nat> := [0, 1420, 3454, 4922, 5132, 6751, 9959, 13993, 14547, 18653, 20482, 23055, 23598, 23956, 25067, 25566, 27966, 27973, 28483, 29334, 29844, 30620, 31685, 31882, 32375, 32425, 32757, 32767]
  const ROW4: seq<nat> := [0, 4209, 5209, 5503, 5994, 6779, 9809, 13734, 16394, 17728, 20734, 21636, 23733, 24071, 24785, 26194, 28482, 28566, 29403, 30186, 30894, 31383, 32100, 32294, 32382, 32531, 32744, 32767]
  const ROW5: seq<nat> := [0, 6157, 9213, 10380, 13294, 15931, 16600, 16829, 17987, 18142, 18574, 18667, 19055, 21787, 22406, 24449, 24772, 25604, 25663, 29173, 30781, 31791, 31995, 32219, 32350, 32610, 32748, 32767]
  const ROW6: seq<nat> := [0, 4891, 8913, 10772, 13035, 15218, 19118, 19893, 20080, 21202, 22114, 23568, 23895, 24392, 26546, 26760, 27744, 28021, 30534, 31037, 31376, 31650, 32250, 32490, 32548, 32565, 32709, 32767]
  const ROW7: seq<nat> := [0, 4689, 9532, 12839, 16144, 19335, 21427, 21880, 22583, 23728, 24811, 25404, 25957, 26777, 27443, 28035, 29213, 30179, 30481, 31447, 31666, 31782, 32303, 32484, 32510, 32511, 32751, 32767]
  const ROW8: seq<nat> := [0, 5750, 9495, 10402, 12127, 13082, 19468, 19684, 19710, 21681, 23775, 24600, 25576, 26982, 27084, 27953, 30214, 30492, 30515, 30947, 31019, 31446, 31709, 31847, 31884, 31884, 32761, 32767]
  const ROW9: seq<nat> := [0, 1827, 5418, 7243, 11598, 13806, 14484, 14972, 15432, 15532, 16785, 16863, 17441, 18465, 19298, 23066, 24626, 26449, 26523, 27067, 29601, 31460, 31683, 32257, 32266, 32312, 32318, 32767]
  const ROW10: seq<nat> := [0, 3085, 6902, 11386, 13498, 18692, 21202, 21246, 22818, 22950, 23980, 24484, 25962, 30168, 30176, 30181, 30391, 31287, 31288, 31293, 31294, 31297, 31592, 32703, 32712, 32712, 32767, 32767]
  const ROW11: seq<nat> := [0, 1460, 2488, 3382, 4190, 4382, 7997, 13589, 16710, 21209, 25118, 26178, 26204, 26432, 27181, 28387, 30216, 30257, 30864, 31867, 32177, 32219, 32374, 32455, 32551, 32617, 32754, 32767]
  const ROW12: seq<nat> := [0, 3497, 9469, 11581, 13649, 15750, 19606, 19858, 20362, 20409, 23728, 23738, 24110, 26020, 26170, 26284, 28241, 29240, 29247, 29296, 29442, 29819, 30442, 30559, 30604, 30604, 32763, 32767]
  const ROW13: seq<nat> := [0, 7725, 13656, 15552, 18212, 19436, 22322, 22566, 23251, 23443, 26247, 26267, 26704, 26809, 27460, 27622, 29567, 30839, 30969, 31225, 31379, 31448, 32114, 32127, 32143, 32143, 32739, 32767]
  const ROW14: seq<nat> := [0, 3654, 6677, 7904, 9941, 12843, 16232, 16550, 19915, 20300, 22842, 22898, 23406, 25127, 25246, 25931, 27743, 28101, 28153, 28321, 29252, 31975, 32243, 32396, 32480, 32494, 32721, 32767]
  const ROW15: seq<nat> := [0, 2259, 4242, 6358, 8676, 10453, 10663, 11361, 12343, 12503, 13022, 13049, 13568, 15061, 16673, 21204, 22114, 23775, 23801, 26743, 28089, 29382, 31518, 31992, 32482, 32634, 32711, 32767]
  const ROW16: seq<nat> := [0, 8569, 10926, 11269, 11458, 12219, 15419, 15811, 16168, 19632, 21864, 22233, 22272, 23584, 23897, 24563, 27086, 27677, 27838, 30347, 30897, 31720, 32305, 32316, 32374, 32410, 32766, 32767]
  const ROW17: seq<nat> := [0, 5421, 10228, 13261, 16435, 18453, 18538, 19596, 22477, 22749, 25180, 25189, 26615, 28325, 28370, 28391, 28704, 29610, 30232, 30341, 30376, 30446, 32750, 32760, 32764, 32764, 32765, 32767]
  const ROW18: seq<nat> := [0, 3536, 8233, 9248, 10667, 11916, 16198, 16366, 17262, 17620, 22341, 22384, 23103, 23432, 24178, 24653, 27955, 28446, 28462, 29156, 29914, 30860, 31440, 31618, 31718, 31718, 32711, 32767]
  const ROW19: seq<nat> := [0, 6957, 8777, 9282, 11114, 12083, 14679, 14746, 15172, 16789, 19423, 19431, 20076, 20456, 21353, 21603, 22831, 23934, 24047, 24077, 26986, 30996, 32258, 32271, 32421, 32421, 32764, 32767]
  const ROW20: seq<nat> := [0, 4391, 7270, 8148, 9018, 9499, 14426, 14654, 14752, 18571, 23671, 23681, 23696, 24591, 24714, 24801, 27775, 27825, 27830, 30016, 30215, 30862, 31659, 31682, 31823, 31824, 32740, 32767]
  const ROW21: seq<nat> := [0, 508, 5145, 6952, 9251, 10376, 10985, 11140, 11725, 11743, 12502, 12513, 12662, 15602, 17187, 22455, 22627, 23556, 23562, 26519, 30666, 32564, 32574, 32641, 32646, 32708, 32730, 32767]
  const ROW22: seq<nat> := [0, 2561, 9484, 10526, 12712, 13144, 24077, 24752, 24913, 25311, 29557, 29584, 29814, 30171, 30199, 30250, 31654, 31986, 32003, 32134, 32255, 32412, 32625, 32686, 32687, 32687, 32751, 32767]
  const ROW23: seq<nat> := [0, 1902, 10556, 12815, 13501, 14918, 18520, 18600, 18633, 21631, 26209, 26218, 26391, 26794, 26889, 27833, 30807, 31246, 31254, 31774, 32060, 32183, 32247, 32252, 32655, 32655, 32756, 32767]
  const ROW24: seq<nat> := [0, 3478, 6497, 8308, 12600, 13818, 17038, 17122, 17152, 17528, 20748, 21906, 22255, 22599, 22677, 24481, 25735, 28777, 28815, 28891, 29073, 31075, 31424, 31433, 31485, 31485, 32764, 32767]
  const ROW25: seq<nat> := [0, 17596, 18281, 18455, 19256, 19875, 20521, 20599, 20949, 21038, 21413, 21416, 23479, 24932, 25804, 26610, 28270, 29555, 29557, 30312, 31584, 32451, 32516, 32525, 32623, 32701, 32703, 32767]
  const ROW26: seq<nat> := [0, 392, 8308, 10995, 11504, 13348, 22180, 22194, 22231, 22248, 23981, 23981, 26646, 26978, 27000, 27014, 30409, 30435, 30435, 30457, 30474, 30503, 30697, 30704, 30818, 30818, 31861, 32767]

  const MODEL_CF: seq<seq<nat>> := [
    ROW0, ROW1, ROW2, ROW3, ROW4, ROW5, ROW6, ROW7, ROW8, ROW9, ROW10, ROW11, ROW12, ROW13,
    ROW14, ROW15, ROW16, ROW17, ROW18, ROW19, ROW20, ROW21, ROW22, ROW23, ROW24, ROW25, ROW26
  ]

  /** Neighbouring entries in order are enough for a whole row in order. */
  lemma {:induction false} Ascending(r: seq<nat>, i: nat, j: nat)
    requires i <= j < |r|
    requires forall k :: 0 <= k < |r| - 1 ==> r[k] <= r[k + 1]
    ensures r[i] <= r[j]
  {
    if i < j { Ascending(r, i, j - 1); }
  }

  lemma RowIsValid(r: seq<nat>)
    requires |r| == ROW_WIDTH && r[0] == 0 && r[27] == TOTAL
    requires forall k :: 0 <= k < |r| - 1 ==> r[k] <= r[k + 1]
    ensures ValidRow(r)
  {
    forall i, j | 0 <= i <= j < ROW_WIDTH ensures r[i] <= r[j] {
      Ascending(r, i, j);
    }
  }

  /** One more condition on a row that follows a letter. */
  ghost predicate LetterRow(r: seq<nat>) {
    ValidRow(r) && r[1] > 0
  }

  lemma LetterRowIsValid(r: seq<nat>)
    requires |r| == ROW_WIDTH && r[0] == 0 && r[27] == TOTAL && r[1] > 0
    requires forall k :: 0 <= k < |r| - 1 ==> r[k] <= r[k + 1]
    ensures LetterRow(r)
  {
    RowIsValid(r);
  }

  lemma ModelRows1To4()
    ensures forall k :: 1 <= k < 5 ==> LetterRow(MODEL_CF[k])
  {
    hide LetterRow;
    LetterRowIsValid(ROW1);
    LetterRowIsValid(ROW2);
    LetterRowIsValid(ROW3);
    LetterRowIsValid(ROW4);
  }

  lemma ModelRows5To8()
    ensures forall k :: 5 <= k < 9 ==> LetterRow(MODEL_CF[k])
  {
    hide LetterRow;
    LetterRowIsValid(ROW5);
    LetterRowIsValid(ROW6);
    LetterRowIsValid(ROW7);
    LetterRowIsValid(ROW8);
  }

  lemma ModelRows9To12()
    ensures forall k :: 9 <= k < 13 ==> LetterRow(MODEL_CF[k])
  {
    hide LetterRow;
    LetterRowIsValid(ROW9);
    LetterRowIsValid(ROW10);
    LetterRowIsValid(ROW11);
    LetterRowIsValid(ROW12);
  }

  lemma ModelRows13To16()
    ensures forall k :: 13 <= k < 17 ==> LetterRow(MODEL_CF[k])
  {
    hide LetterRow;
    LetterRowIsValid(ROW13);
    LetterRowIsValid(ROW14);
    LetterRowIsValid(ROW15);
    LetterRowIsValid(ROW16);
  }

  lemma ModelRows17To20()
    ensures forall k :: 17 <= k < 21 ==> LetterRow(MODEL_CF[k])
  {
    hide LetterRow;
    LetterRowIsValid(ROW17);
    LetterRowIsValid(ROW18);
    LetterRowIsValid(ROW19);
    LetterRowIsValid(ROW20);
  }

  lemma ModelRows21To23()
    ensures forall k :: 21 <= k < 24 ==> LetterRow(MODEL_CF[k])
  {
    hide LetterRow;
    LetterRowIsValid(ROW21);
    LetterRowIsValid(ROW22);
    LetterRowIsValid(ROW23);
  }

  lemma ModelRows24To26()
    ensures forall k :: 24 <= k < 27 ==> LetterRow(MODEL_CF[k])
  {
    hide LetterRow;
    LetterRowIsValid(ROW24);
    LetterRowIsValid(ROW25);
    LetterRowIsValid(ROW26);
  }

  lemma LetterRowIsRow(r: seq<nat>)
    requires LetterRow(r)
    ensures ValidRow(r) && r[1] > 0
  {
  }

  /** The shipped table meets every condition the coder relies on. */
  lemma ModelIsValid()
    ensures ValidTable(MODEL_CF)
  {
    hide LetterRow, ValidRow;
    RowIsValid(ROW0);
    ModelRows1To4();
    ModelRows5To8();
    ModelRows9To12();
    ModelRows13To16();
    ModelRows17To20();
    ModelRows21To23();
    ModelRows24To26();
    forall k | 1 <= k < 27 ensures ValidRow(MODEL_CF[k]) && MODEL_CF[k][1] > 0 {
      LetterRowIsRow(MODEL_CF[k]);
    }
    assert MODEL_CF[0] == ROW0;
  }
}
