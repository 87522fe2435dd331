// The two-level task kind: category in the high byte, sub task in the low byte.
module TaskKind {
  import opened LittleEndian

  const CATEGORY_MAIL: Byte := 1
  const CATEGORY_CURRENCY: Byte := 2
  const MAIL_ADDED: Byte := 1
  const MAIL_REMOVED: Byte := 2
  const CURRENCY_UPDATED: Byte := 1

  // category << 8 | subTask
  function MakeTaskKind(category: Byte, subTask: Byte): (kind: nat)
    ensures kind < 0x1_0000
  {
    category * 256 + subTask
  }

  // The low byte of taskKind >> 8.
  function CategoryOf(kind: nat): Byte {
    kind / 256 % 256
  }

  // taskKind & 0xFF
  function SubTaskOf(kind: nat): Byte {
    kind % 256
  }

  // Splitting and joining are inverse to each other, so kinds and pairs correspond one to one.
  lemma KindsArePairs(category: Byte, subTask: Byte, kind: nat)
    requires kind < 0x1_0000
    ensures kind == MakeTaskKind(category, subTask) <==> CategoryOf(kind) == category && SubTaskOf(kind) == subTask
  {
  }
}
