/** The table of src/math.c: 2/pi to 1280 bits, most significant word first. */
module TwoOverPi {
  import opened Binary
  import opened PayneHanek

  const TABLE: seq<Word> := [
    0xa2f9_836e, 0x4e44_1529, 0xfc27_57d1, 0xf534_ddc0, 0xdb62_9599, 0x3c43_9041,
    0xfe51_63ab, 0xdebb_c561, 0xb724_6e3a, 0x424d_d2e0, 0x0649_2eea, 0x09d1_921c,
    0xfe1d_eb1c, 0xb129_a73e, 0xe882_35f5, 0x2ebb_4484, 0xe99c_7026, 0xb45f_7e41,
    0x3991_d639, 0x8353_39f4, 0x9c84_5f8b, 0xbdf9_283b, 0x1ff8_97ff, 0xde05_980f,
    0xef2f_118b, 0x5a0a_6d1f, 0x6d36_7ecf, 0x27cb_09b7, 0x4f46_3f66, 0x9e5f_ea2d,
    0x7527_bac7, 0xebe5_f17b, 0x3d07_39f7, 0x8a52_92ea, 0x6bfb_5fb1, 0x1f8d_5d08,
    0x5603_3046, 0xfc7b_6bab, 0xf0cf_bc20, 0x9af4_361d
  ]

  /** The reduction of a finite double modulo pi/2: the quadrant, and the remainder in units of
      2^-64 quadrants. */
  method ReducePio2(d: Double) returns (quad: int, fd: int)
    requires d.Finite()
    ensures exists n :: Reduced(Val(Reversed(TABLE)), d, quad, fd, n)
  {
    quad, fd := Reduce(TABLE, d);
  }
}
